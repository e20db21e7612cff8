/** What the 32-bit counts of chunks can and cannot get wrong. The number of chunks of a region is a power of two, or
    zero, and that rules out most of what the arithmetic alone would let go wrong. */
module RegionCounts {
  import opened Powers
  import opened RegionLayout
  import opened RegionPools
  import Words

  // ---------------------------------------------------------------------------------------------- split bounds

  lemma PowersOf32()
    ensures Pow2(31) == U32 / 2 && Pow2(32) == U32
  {
    assert Pow2(8) == 256;
    Pow2Add(8, 8);
    Pow2Add(16, 16);
  }

  /** Dealing a power of two out to a power of two of splits rounds up to no more than the larger of the two. */
  lemma PowerDealtOut(k: nat, s: nat)
    ensures PerSplit(Pow2(k), s) * Pow2(s) == Pow2(if s <= k then k else s)
  {
    var n, w := Pow2(k), Pow2(s);
    if s <= k {
      Pow2Add(k - s, s);
      DivPow2Unique(n + w - 1, s, Pow2(k - s));
    } else {
      Pow2Monotone(k, s);
      DivPow2Unique(n + w - 1, s, 1);
    }
  }

  /** The splits of a power of two are all equally large, or of one handle each until the handles run out. */
  lemma SplitsEven(k: nat, splitsLog2: nat, s: nat)
    requires s < Pow2(splitsLog2)
    ensures var size := SplitStart(Pow2(k), splitsLog2, s + 1) - SplitStart(Pow2(k), splitsLog2, s);
            size == if splitsLog2 <= k then Pow2(k - splitsLog2) else if s < Pow2(k) then 1 else 0
  {
    var q, w := PerSplit(Pow2(k), splitsLog2), Pow2(splitsLog2);
    PowerDealtOut(k, splitsLog2);
    QuotientOfPower(k, splitsLog2, q);
    MulKeepsOrder(s + 1, w, q);
    MulDistributes(s, 1, q);
    MulCommutes(q, s);
    MulCommutes(q, s + 1);
    MulCommutes(q, w);
  }

  lemma QuotientOfPower(k: nat, s: nat, q: nat)
    requires q * Pow2(s) == Pow2(if s <= k then k else s)
    ensures q == if s <= k then Pow2(k - s) else 1
  {
    var r := if s <= k then Pow2(k - s) else 1;
    if s <= k {
      Pow2Add(k - s, s);
    }
    MulKeepsOrder(q, r, Pow2(s));
    MulKeepsOrder(r, q, Pow2(s));
  }

  /** The split bounds of a region that create() can come up with are never cut short. */
  lemma SplitsNeverCut(c: Config, splitsLog2: nat, i: nat)
    requires c.Accepted() && i < c.Count() && c.Handles(i) < U32 && splitsLog2 < 32
    ensures SplitsStoredExactly(c.Handles(i), splitsLog2)
  {
    var n := c.Handles(i);
    PowersOf32();
    Pow2Monotone(splitsLog2, 31);
    SizeIsPow2(c, i);
    PowersDivide(c.SizeLog2(i), c.chunkLog2[i]);
    if n == 0 {
      SplitsCover(0, splitsLog2);
    } else {
      var k := c.SizeLog2(i) - c.chunkLog2[i];
      Pow2Monotone(32, k);
      Pow2Monotone(k, 31);
      PowerDealtOut(k, splitsLog2);
    }
    SplitsStoredExactlyWhen(n, splitsLog2);
  }

  /** So nothing is cut short exactly when all the chunks together can be counted in 32 bits. */
  lemma ExactWhen(c: Config, splitsLog2: nat)
    requires c.Accepted() && splitsLog2 < 32
    ensures Exact(c, splitsLog2) <==> c.FirstHandle(c.Count()) < U32
  {
    StoredExactlyWhen(c);
    if c.FirstHandle(c.Count()) < U32 {
      forall i: nat | i < c.Count() ensures SplitsStoredExactly(c.Handles(i), splitsLog2) {
        OffsetsRise(c, i + 1, c.Count());
        SplitsNeverCut(c, splitsLog2, i);
      }
    }
  }

  /** One region of 2^32 chunks of a byte each is accepted, and stored as a region without chunks. */
  lemma TooManyChunks(c: Config)
    requires c == Config([32], [0], 0)
    ensures c.Accepted() && c.Handles(0) == U32 && StoredHandles(c, 0) == 0 && !StoredExactly(c)
  {
    PowersOf32();
    SizeIsPow2(c, 0);
    PowersDivide(32, 0);
    assert c.SizeLog2(0) == 32;
  }

  // ---------------------------------------------------------------------------------------------- the "failed" word

  /** Adding a power of two sets at most one more bit. */
  lemma {:induction false} OneMoreBit(w: nat, j: nat)
    ensures Words.PopCount(w + Pow2(j)) <= Words.PopCount(w) + 1
    decreases j, w
  {
    if j == 0 {
      if w % 2 == 1 {
        OneMoreBit(w / 2, 0);
        assert (w + 1) / 2 == w / 2 + 1;
      } else {
        assert (w + 1) / 2 == w / 2;
      }
    } else {
      OneMoreBit(w / 2, j - 1);
      assert (w + Pow2(j)) / 2 == w / 2 + Pow2(j - 1) && (w + Pow2(j)) % 2 == w % 2;
    }
  }

  lemma {:induction false} AllOnes(k: nat)
    ensures Words.PopCount(Pow2(k) - 1) == k
  {
    if k > 0 {
      AllOnes(k - 1);
      assert (Pow2(k) - 1) / 2 == Pow2(k - 1) - 1 && (Pow2(k) - 1) % 2 == 1;
    }
  }

  /** The number of all chunks has at most one bit set for every region. */
  lemma {:induction false} BitsOfTotal(c: Config, i: nat)
    requires c.Accepted() && i <= c.Count()
    ensures Words.PopCount(c.FirstHandle(i)) <= i
  {
    if i > 0 {
      BitsOfTotal(c, i - 1);
      SizeIsPow2(c, i - 1);
      PowersDivide(c.SizeLog2(i - 1), c.chunkLog2[i - 1]);
      if c.Handles(i - 1) > 0 {
        OneMoreBit(c.FirstHandle(i - 1), c.SizeLog2(i - 1) - c.chunkLog2[i - 1]);
      }
    }
  }

  /** With fewer than 32 regions there are never so many chunks that "failed" is taken for a handle. */
  lemma FewRegionsToldApart(c: Config)
    requires c.Accepted() && c.Count() < 32 && c.FirstHandle(c.Count()) < U32
    ensures c.FirstHandle(c.Count()) <= FAILED
  {
    PowersOf32();
    AllOnes(32);
    BitsOfTotal(c, c.Count());
  }

  /** Regions of 1, 2, 4, ... chunks of a byte each. */
  function Doubling(n: nat): Config {
    Config(seq(n, i => i), seq(n, i => 0), 0)
  }

  lemma {:induction false} DoublingTotal(n: nat, i: nat)
    requires i <= n
    ensures Doubling(n).FirstHandle(i) == Pow2(i) - 1
  {
    if i > 0 {
      DoublingTotal(n, i - 1);
      SizeIsPow2(Doubling(n), i - 1);
      PowersDivide(i - 1, 0);
    }
  }

  /** With 32 there can be. */
  lemma ManyRegionsMistaken(n: nat)
    requires n == 32
    ensures Doubling(n).Accepted() && Doubling(n).Count() == 32
    ensures FAILED < Doubling(n).FirstHandle(32) < U32
  {
    PowersOf32();
    DoublingTotal(n, 32);
  }
}
