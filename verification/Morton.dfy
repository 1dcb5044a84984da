/** `BitOps::mortonInterleave` and `mortonSplit`: chunks of bits are moved apart, or together,
    in halving or doubling steps. The word has `W = 2^k` bits, and `B` is `2^j`. */
module Morton {
  import opened Words
  import opened BitCount

  function SpreadStep(k: nat, j: nat, n: nat): nat {
    And(Or(n, Shl(Pow2(k), n, Pow2(j))), Mask(k, j))
  }

  function SpreadOp(k: nat, j: nat, n: nat): nat {
    var m := SpreadStep(k, j, n);
    if j == 0 then m else SpreadOp(k, j - 1, m)
  }

  function Interleave(k: nat, x: nat, y: nat): nat
    requires k >= 2
  {
    Or(SpreadOp(k, k - 2, x), Shl(Pow2(k), SpreadOp(k, k - 2, y), 1))
  }

  /** `Gathered` is what the step masks before it folds. */
  function Gathered(k: nat, j: nat, n: nat): nat
    decreases j, 0
  {
    And(if j == 0 then n else GatherOp(k, j - 1, n), Mask(k, j))
  }

  function GatherOp(k: nat, j: nat, n: nat): nat
    decreases j, 1
  {
    var m := Gathered(k, j, n);
    Or(m, Shr(m, Pow2(j)))
  }

  function Split(k: nat, n: nat): (nat, nat)
    requires k >= 2
  {
    (GatherOp(k, k - 2, n), GatherOp(k, k - 2, Shr(n, 1)))
  }

  /** The chunks of `B` bits of `n` stand in `x` at every second place, with zeroes between. */
  ghost predicate IsSpread(k: nat, j: nat, x: nat, n: nat)
    requires j < k
  {
    forall q, o :: 0 <= q < Pow2(k - j - 1) && 0 <= o < Pow2(j + 1) ==> SpreadAt(j, x, n, q, o)
  }

  predicate SpreadAt(j: nat, x: nat, n: nat, q: nat, o: nat) {
    Bit(x, Pos(Pow2(j + 1), q) + o) <==> o < Pow2(j) && Bit(n, Pos(Pow2(j), q) + o)
  }

  lemma SpreadElim(k: nat, j: nat, x: nat, n: nat, q: nat, o: nat)
    requires j < k && IsSpread(k, j, x, n) && q < Pow2(k - j - 1) && o < Pow2(j + 1)
    ensures SpreadAt(j, x, n, q, o)
  {
  }

  /** A word that uses only its lower half is one chunk. */
  lemma LowHalfIsSpread(k: nat, n: nat)
    requires k > 0 && Fits(Pow2(k - 1), n)
    ensures IsSpread(k, k - 1, n, n)
  {
    assert Pow2(0) == 1;
    hide Bit, Pow2;
    var j := k - 1;
    forall q, o | 0 <= q < Pow2(0) && 0 <= o < Pow2(j + 1)
      ensures SpreadAt(j, n, n, q, o)
    {
      PosZero(Pow2(k));
      PosZero(Pow2(k - 1));
      if o >= Pow2(k - 1) {
        HighBitsZero(Pow2(k - 1), n, o);
      }
    }
  }

  // ----- moving apart --------------------------------------------------------------------------------

  lemma SpreadStepBit(k: nat, j: nat, x: nat, q: nat, o: nat)
    requires j < k && q < Pow2(k - j - 1) && o < Pow2(j + 1)
    ensures var B, i := Pow2(j), Pos(Pow2(j + 1), q) + o;
            Bit(SpreadStep(k, j, x), i) <==> o < B && (Bit(x, i) || (i >= B && Bit(x, i - B)))
  {
    var W, B, i := Pow2(k), Pow2(j), Pos(Pow2(j + 1), q) + o;
    FieldInside(k, j, q, o);
    hide Pow2, Bit, And, Or, Shl, Mask, Pos;
    MaskInside(k, j, q, o);
    AndBit(Or(x, Shl(W, x, B)), Mask(k, j), i);
    OrBit(x, Shl(W, x, B), i);
    ShlBit(W, x, B, i);
  }

  /** The places of the chunks before and after a step. */
  lemma ChunkPlaces(j: nat, r: nat)
    ensures Pow2(j + 1) == 2 * Pow2(j) && Pow2(j + 2) == 4 * Pow2(j)
    ensures Pos(Pow2(j + 1), 2 * r) == Pos(Pow2(j + 2), r)
    ensures Pos(Pow2(j + 1), 2 * r + 1) == Pos(Pow2(j + 2), r) + Pow2(j + 1)
    ensures Pos(Pow2(j), 2 * r) == Pos(Pow2(j + 1), r)
    ensures Pos(Pow2(j), 2 * r + 1) == Pos(Pow2(j + 1), r) + Pow2(j)
  {
    PosDouble(Pow2(j), r);
    PosDouble(Pow2(j + 1), r);
  }

  /** Nothing stands in the gap before a chunk. */
  lemma GapBefore(k: nat, j: nat, x: nat, n: nat, r: nat, o: nat)
    requires j + 1 < k && IsSpread(k, j + 1, x, n) && r < Pow2(k - j - 2) && o < Pow2(j)
    ensures var i := Pos(Pow2(j + 2), r) + o; i >= Pow2(j) ==> !Bit(x, i - Pow2(j))
  {
    ChunkPlaces(j, r);
    PosZero(Pow2(j + 2));
    if r > 0 {
      PosNext(Pow2(j + 2), r - 1);
      hide Pow2, Bit, Pos, IsSpread;
      SpreadElim(k, j + 1, x, n, r - 1, 3 * Pow2(j) + o);
    }
  }

  lemma TwiceAsMany(k: nat, j: nat)
    requires j + 1 < k
    ensures Pow2(k - j - 1) == 2 * Pow2(k - j - 2)
  {
  }

  lemma SpreadStepEven(k: nat, j: nat, x: nat, n: nat, r: nat, o: nat)
    requires j + 1 < k && IsSpread(k, j + 1, x, n) && r < Pow2(k - j - 2) && o < Pow2(j)
    ensures SpreadAt(j, SpreadStep(k, j, x), n, 2 * r, o)
  {
    hide Pow2, Bit, SpreadStep, Pos, IsSpread;
    ChunkPlaces(j, r);
    TwiceAsMany(k, j);
    var at := Pos(Pow2(j + 2), r);
    GapBefore(k, j, x, n, r, o);
    assert Bit(SpreadStep(k, j, x), at + o) <==> Bit(x, at + o) by {
      SpreadStepBit(k, j, x, 2 * r, o);
    }
    assert Bit(x, at + o) <==> Bit(n, Pos(Pow2(j + 1), r) + o) by {
      SpreadElim(k, j + 1, x, n, r, o);
    }
  }

  /** The second half of a chunk, and the gap behind the chunk. */
  lemma SecondHalf(k: nat, j: nat, x: nat, n: nat, r: nat, o: nat)
    requires j + 1 < k && IsSpread(k, j + 1, x, n) && r < Pow2(k - j - 2) && o < Pow2(j)
    ensures var at, B := Pos(Pow2(j + 2), r), Pow2(j);
            && !Bit(x, at + 2 * B + o)
            && (Bit(x, at + B + o) <==> Bit(n, Pos(Pow2(j + 1), r) + B + o))
  {
    hide Pow2, Bit, Pos, IsSpread;
    ChunkPlaces(j, r);
    SpreadElim(k, j + 1, x, n, r, 2 * Pow2(j) + o);
    SpreadElim(k, j + 1, x, n, r, Pow2(j) + o);
  }

  lemma SpreadStepOdd(k: nat, j: nat, x: nat, n: nat, r: nat, o: nat)
    requires j + 1 < k && IsSpread(k, j + 1, x, n) && r < Pow2(k - j - 2) && o < Pow2(j)
    ensures SpreadAt(j, SpreadStep(k, j, x), n, 2 * r + 1, o)
  {
    hide Pow2, Bit, SpreadStep, Pos, IsSpread;
    ChunkPlaces(j, r);
    TwiceAsMany(k, j);
    var i, B, e := Pos(Pow2(j + 1), 2 * r + 1) + o, Pow2(j), Pos(Pow2(j), 2 * r + 1) + o;
    assert !Bit(x, i) && i >= B && (Bit(x, i - B) <==> Bit(n, e)) by {
      SecondHalf(k, j, x, n, r, o);
      assert i == Pos(Pow2(j + 2), r) + 2 * B + o && i - B == Pos(Pow2(j + 2), r) + B + o;
      assert e == Pos(Pow2(j + 1), r) + B + o;
    }
    SpreadStepBit(k, j, x, 2 * r + 1, o);
  }

  lemma SpreadStepSpreads(k: nat, j: nat, x: nat, n: nat)
    requires j + 1 < k && IsSpread(k, j + 1, x, n)
    ensures IsSpread(k, j, SpreadStep(k, j, x), n)
  {
    assert Pow2(k - j - 1) == 2 * Pow2(k - j - 2);
    hide Pow2, Bit, SpreadStep, Pos;
    forall q, o | 0 <= q < Pow2(k - j - 1) && 0 <= o < Pow2(j + 1)
      ensures SpreadAt(j, SpreadStep(k, j, x), n, q, o)
    {
      if o >= Pow2(j) {
        SpreadStepBit(k, j, x, q, o);
      } else if q % 2 == 0 {
        SpreadStepEven(k, j, x, n, q / 2, o);
      } else {
        SpreadStepOdd(k, j, x, n, q / 2, o);
      }
    }
  }

  lemma {:induction false} SpreadOpSpreads(k: nat, j: nat, x: nat, n: nat)
    requires j + 1 < k && IsSpread(k, j + 1, x, n)
    ensures IsSpread(k, 0, SpreadOp(k, j, x), n) && Fits(Pow2(k), SpreadOp(k, j, x))
    decreases j
  {
    hide SpreadStep, IsSpread;
    SpreadStepSpreads(k, j, x, n);
    SpreadStepFits(k, j, x);
    if j > 0 {
      SpreadOpSpreads(k, j - 1, SpreadStep(k, j, x), n);
    }
  }

  lemma SpreadStepFits(k: nat, j: nat, x: nat)
    ensures Fits(Pow2(k), SpreadStep(k, j, x))
  {
    MaskFits(k, j);
    AndFits(Pow2(k), Or(x, Shl(Pow2(k), x, Pow2(j))), Mask(k, j));
  }

  /** The bits of a spread word: bit `i` of `n` is at `2i`, and the odd bits are zero. */
  lemma SpreadBits(k: nat, n: nat, i: nat)
    requires k >= 2 && Fits(Pow2(k - 1), n) && i < Pow2(k - 1)
    ensures Fits(Pow2(k), SpreadOp(k, k - 2, n))
    ensures Bit(SpreadOp(k, k - 2, n), 2 * i) == Bit(n, i) && !Bit(SpreadOp(k, k - 2, n), 2 * i + 1)
  {
    LowHalfIsSpread(k, n);
    assert Pow2(0) == 1 && Pow2(1) == 2;
    assert Pos(2, i) == 2 * i && Pos(1, i) == i;
    hide Pow2, Bit, SpreadOp, Pos, IsSpread;
    SpreadOpSpreads(k, k - 2, n, n);
    var s := SpreadOp(k, k - 2, n);
    SpreadElim(k, 0, s, n, i, 0);
    SpreadElim(k, 0, s, n, i, 1);
  }

  /** Bit `i` of `x` goes to `2i` and bit `i` of `y` to `2i + 1`. */
  lemma InterleaveBits(k: nat, x: nat, y: nat, i: nat)
    requires k >= 2 && Fits(Pow2(k - 1), x) && Fits(Pow2(k - 1), y) && i < Pow2(k - 1)
    ensures Fits(Pow2(k), Interleave(k, x, y))
    ensures Bit(Interleave(k, x, y), 2 * i) == Bit(x, i)
    ensures Bit(Interleave(k, x, y), 2 * i + 1) == Bit(y, i)
  {
    var W, a, b := Pow2(k), SpreadOp(k, k - 2, x), SpreadOp(k, k - 2, y);
    assert W == 2 * Pow2(k - 1);
    hide Pow2, Bit, SpreadOp, Or, Shl;
    SpreadBits(k, x, i);
    SpreadBits(k, y, i);
    if i > 0 {
      SpreadBits(k, y, i - 1);
    }
    OrBit(a, Shl(W, b, 1), 2 * i);
    OrBit(a, Shl(W, b, 1), 2 * i + 1);
    ShlBit(W, b, 1, 2 * i);
    ShlBit(W, b, 1, 2 * i + 1);
    TruncFits(W, b);
    OrFits(W, a, Shl(W, b, 1));
  }

  lemma TruncFits(W: nat, n: nat)
    ensures Fits(W, Shl(W, n, 1))
  {
  }

  /** Two pairs have the same Morton number only if they are the same. */
  lemma InterleaveIsInjective(k: nat, x: nat, y: nat, x': nat, y': nat)
    requires k >= 2 && Fits(Pow2(k - 1), x) && Fits(Pow2(k - 1), y)
    requires Fits(Pow2(k - 1), x') && Fits(Pow2(k - 1), y')
    ensures Interleave(k, x, y) == Interleave(k, x', y') <==> x == x' && y == y'
  {
    hide Interleave, Bit, Pow2;
    if Interleave(k, x, y) == Interleave(k, x', y') {
      forall i | 0 <= i < Pow2(k - 1)
        ensures Bit(x, i) == Bit(x', i) && Bit(y, i) == Bit(y', i)
      {
        InterleaveBits(k, x, y, i);
        InterleaveBits(k, x', y', i);
      }
      SameBits(Pow2(k - 1), x, x');
      SameBits(Pow2(k - 1), y, y');
    }
  }

  // ----- moving together -----------------------------------------------------------------------------

  /** `e` has the even bits of `n`. */
  ghost predicate EvenBits(k: nat, n: nat, e: nat)
    requires k > 0
  {
    Fits(Pow2(k - 1), e) && forall i :: 0 <= i < Pow2(k - 1) ==> Bit(e, i) == Bit(n, 2 * i)
  }

  lemma GatherStartAt(k: nat, n: nat, e: nat, q: nat, o: nat)
    requires k > 0 && EvenBits(k, n, e) && q < Pow2(k - 1) && o < 2
    ensures SpreadAt(0, Gathered(k, 0, n), e, q, o)
  {
    assert Pow2(0) == 1 && Pow2(1) == 2;
    assert Pos(2, q) == 2 * q && Pos(1, q) == q;
    hide Bit, And, Mask, Pow2, Pos;
    AndBit(n, Mask(k, 0), 2 * q + o);
    MaskInside(k, 0, q, o);
    assert Bit(e, q) == Bit(n, 2 * q);
  }

  lemma GatherStart(k: nat, n: nat, e: nat)
    requires k > 0 && EvenBits(k, n, e)
    ensures IsSpread(k, 0, Gathered(k, 0, n), e)
  {
    assert Pow2(1) == 2;
    hide SpreadAt, EvenBits, Gathered, Pow2;
    forall q, o | 0 <= q < Pow2(k - 1) && 0 <= o < Pow2(1)
      ensures SpreadAt(0, Gathered(k, 0, n), e, q, o)
    {
      GatherStartAt(k, n, e, q, o);
    }
  }

  /** The bits of one fold, inside the chunks of double width that the next mask keeps. */
  lemma FoldBit(k: nat, j: nat, z: nat, e: nat, r: nat, o: nat)
    requires j + 1 < k && IsSpread(k, j, z, e) && r < Pow2(k - j - 2) && o < Pow2(j + 1)
    ensures Bit(Or(z, Shr(z, Pow2(j))), Pos(Pow2(j + 2), r) + o) <==> Bit(e, Pos(Pow2(j + 1), r) + o)
  {
    var B, at := Pow2(j), Pos(Pow2(j + 2), r);
    hide Pow2, Bit, Or, Shr, Pos, IsSpread;
    ChunkPlaces(j, r);
    TwiceAsMany(k, j);
    OrBit(z, Shr(z, B), at + o);
    ShrBit(z, B, at + o);
    SpreadElim(k, j, z, e, 2 * r, o);
    if o < B {
      SpreadElim(k, j, z, e, 2 * r, o + B);
    } else {
      SpreadElim(k, j, z, e, 2 * r + 1, o - B);
    }
  }

  lemma GatherNextAt(k: nat, j: nat, z: nat, e: nat, r: nat, o: nat)
    requires j + 1 < k && IsSpread(k, j, z, e) && r < Pow2(k - j - 2) && o < Pow2(j + 2)
    ensures SpreadAt(j + 1, And(Or(z, Shr(z, Pow2(j))), Mask(k, j + 1)), e, r, o)
  {
    var g := Or(z, Shr(z, Pow2(j)));
    hide Pow2, Bit, And, Or, Shr, Mask, Pos, IsSpread;
    var i := Pos(Pow2(j + 2), r) + o;
    assert Bit(And(g, Mask(k, j + 1)), i) <==> Bit(g, i) && o < Pow2(j + 1) by {
      AndBit(g, Mask(k, j + 1), i);
      MaskInside(k, j + 1, r, o);
    }
    if o < Pow2(j + 1) {
      FoldBit(k, j, z, e, r, o);
    }
  }

  lemma GatheredNext(k: nat, j: nat, n: nat)
    requires j > 0
    ensures var z := Gathered(k, j - 1, n);
            Gathered(k, j, n) == And(Or(z, Shr(z, Pow2(j - 1))), Mask(k, j))
  {
    hide And, Or, Shr, Mask, Pow2;
  }

  lemma {:induction false} GatheredIsSpread(k: nat, j: nat, n: nat, e: nat)
    requires j < k && EvenBits(k, n, e)
    ensures IsSpread(k, j, Gathered(k, j, n), e)
    decreases j
  {
    hide Gathered, And, Or, Shr, Mask;
    if j == 0 {
      GatherStart(k, n, e);
    } else {
      GatheredIsSpread(k, j - 1, n, e);
      hide SpreadAt, EvenBits, Pow2;
      forall q, o | 0 <= q < Pow2(k - j - 1) && 0 <= o < Pow2(j + 1)
        ensures SpreadAt(j, Gathered(k, j, n), e, q, o)
      {
        GatherNextAt(k, j - 1, Gathered(k, j - 1, n), e, q, o);
        GatheredNext(k, j, n);
      }
    }
  }

  /** What a split yields for even bits `e`: `e` itself, and behind it a copy of its upper half,
      as the last fold is not masked. */
  function WithEcho(k: nat, e: nat): nat
    requires k >= 2
  {
    e + Pow2(Pow2(k - 1)) * Shr(e, Pow2(k - 2))
  }

  lemma WithEchoBit(k: nat, e: nat, i: nat)
    requires k >= 2 && Fits(Pow2(k - 1), e)
    ensures Bit(WithEcho(k, e), i) <==> if i < Pow2(k - 1) then Bit(e, i) else Bit(e, i - Pow2(k - 2))
    ensures Fits(Pow2(k), WithEcho(k, e))
  {
    var H, Q := Pow2(k - 1), Pow2(k - 2);
    assert H == Q + Q && Pow2(k) == H + H;
    hide Bit, Shr, Pow2, Trunc;
    var n := WithEcho(k, e);
    assert n == Pow2(H) * Shr(e, Q) + e;
    QuotientIs(n, H, Shr(e, Q), e);
    ShrFits(H, e, Q);
    Recompose(H, H, Shr(e, Q), e);
    if i < H {
      TruncBit(H, n, i);
    } else {
      ShrBit(n, H, i - H);
      ShrBit(e, Q, i - H);
    }
  }

  lemma GatherOpLow(k: nat, n: nat, e: nat, i: nat)
    requires k >= 2 && EvenBits(k, n, e) && i < Pow2(k - 1)
    ensures Bit(GatherOp(k, k - 2, n), i) <==> Bit(e, i)
  {
    var z := Gathered(k, k - 2, n);
    assert Pow2(0) == 1;
    PosZero(Pow2(k - 1));
    PosZero(Pow2(k));
    assert GatherOp(k, k - 2, n) == Or(z, Shr(z, Pow2(k - 2)));
    hide Pow2, Bit, Or, Shr, Pos, IsSpread, Gathered, GatherOp;
    GatheredIsSpread(k, k - 2, n, e);
    FoldBit(k, k - 2, z, e, 0, i);
  }

  /** The last fold, above the middle of the word: only the upper chunk itself is left. */
  lemma GatheredHigh(k: nat, z: nat, e: nat, o: nat)
    requires k >= 2 && IsSpread(k, k - 2, z, e) && Fits(Pow2(k), z) && Fits(Pow2(k - 1), e) && o < Pow2(k - 1)
    ensures Bit(z, Pow2(k - 1) + o) <==> Bit(e, Pow2(k - 2) + o)
    ensures !Bit(z, Pow2(k - 1) + o + Pow2(k - 2))
  {
    var B, w := Pow2(k - 2), Pow2(k - 1);
    assert Pow2(1) == 2 && w == 2 * B && Pow2(k) == 2 * w;
    PosZero(w);
    PosNext(w, 0);
    PosZero(B);
    PosNext(B, 0);
    hide Pow2, Bit, Pos, IsSpread;
    SpreadElim(k, k - 2, z, e, 1, o);
    if o < B {
      SpreadElim(k, k - 2, z, e, 1, o + B);
    } else {
      HighBitsZero(Pow2(k), z, w + o + B);
      HighBitsZero(w, e, B + o);
    }
  }

  lemma GatherOpHigh(k: nat, n: nat, e: nat, o: nat)
    requires k >= 2 && EvenBits(k, n, e) && o < Pow2(k - 1)
    ensures Bit(GatherOp(k, k - 2, n), Pow2(k - 1) + o) <==> Bit(e, Pow2(k - 2) + o)
  {
    var z := Gathered(k, k - 2, n);
    assert GatherOp(k, k - 2, n) == Or(z, Shr(z, Pow2(k - 2)));
    GatheredFits(k, k - 2, n);
    hide Pow2, Bit, Or, Shr, IsSpread, Gathered, GatherOp;
    GatheredIsSpread(k, k - 2, n, e);
    GatheredHigh(k, z, e, o);
    OrBit(z, Shr(z, Pow2(k - 2)), Pow2(k - 1) + o);
    ShrBit(z, Pow2(k - 2), Pow2(k - 1) + o);
  }

  lemma GatherOpBit(k: nat, n: nat, e: nat, i: nat)
    requires k >= 2 && EvenBits(k, n, e) && i < Pow2(k)
    ensures Bit(GatherOp(k, k - 2, n), i) <==> if i < Pow2(k - 1) then Bit(e, i) else Bit(e, i - Pow2(k - 2))
  {
    assert Pow2(k) == 2 * Pow2(k - 1) && Pow2(k - 1) == 2 * Pow2(k - 2);
    hide Bit, GatherOp, EvenBits;
    if i < Pow2(k - 1) {
      GatherOpLow(k, n, e, i);
    } else {
      GatherOpHigh(k, n, e, i - Pow2(k - 1));
    }
  }

  lemma GatheredFits(k: nat, j: nat, n: nat)
    ensures Fits(Pow2(k), Gathered(k, j, n))
  {
    MaskFits(k, j);
    AndFits(Pow2(k), if j == 0 then n else GatherOp(k, j - 1, n), Mask(k, j));
  }

  /** One half of `mortonSplit`, for every word: the even bits with their echo. */
  lemma GatherIsEvenBits(k: nat, n: nat, e: nat)
    requires k >= 2 && EvenBits(k, n, e)
    ensures GatherOp(k, k - 2, n) == WithEcho(k, e)
  {
    var W, g := Pow2(k), GatherOp(k, k - 2, n);
    GatheredFits(k, k - 2, n);
    ShrFits(W, Gathered(k, k - 2, n), Pow2(k - 2));
    OrFits(W, Gathered(k, k - 2, n), Shr(Gathered(k, k - 2, n), Pow2(k - 2)));
    hide Pow2, Bit, GatherOp, Gathered, WithEcho, Or, Shr;
    WithEchoBit(k, e, 0);
    var f := WithEcho(k, e);
    forall i | 0 <= i < W
      ensures Bit(g, i) == Bit(f, i)
    {
      GatherOpBit(k, n, e, i);
      WithEchoBit(k, e, i);
    }
    SameBits(W, g, f);
  }

  /** The even bits of a Morton number are those of `x`, and of its half those of `y`. */
  lemma InterleavedParts(k: nat, x: nat, y: nat)
    requires k >= 2 && Fits(Pow2(k - 1), x) && Fits(Pow2(k - 1), y)
    ensures EvenBits(k, Interleave(k, x, y), x) && EvenBits(k, Shr(Interleave(k, x, y), 1), y)
  {
    hide Interleave, Bit, Pow2, Shr;
    var n := Interleave(k, x, y);
    forall i | 0 <= i < Pow2(k - 1)
      ensures Bit(x, i) == Bit(n, 2 * i) && Bit(y, i) == Bit(Shr(n, 1), 2 * i)
    {
      InterleaveBits(k, x, y, i);
      ShrBit(n, 1, 2 * i);
    }
  }

  /** Splitting a Morton number gives `x` and `y` in the lower halves of the results, with an
      echo of their own upper halves above. */
  lemma SplitOfInterleave(k: nat, x: nat, y: nat)
    requires k >= 2 && Fits(Pow2(k - 1), x) && Fits(Pow2(k - 1), y)
    ensures Split(k, Interleave(k, x, y)) == (WithEcho(k, x), WithEcho(k, y))
    ensures Trunc(Pow2(k - 1), WithEcho(k, x)) == x && Trunc(Pow2(k - 1), WithEcho(k, y)) == y
  {
    hide Interleave, GatherOp, EvenBits, Trunc, Shr;
    InterleavedParts(k, x, y);
    GatherIsEvenBits(k, Interleave(k, x, y), x);
    GatherIsEvenBits(k, Shr(Interleave(k, x, y), 1), y);
    QuotientIs(WithEcho(k, x), Pow2(k - 1), Shr(x, Pow2(k - 2)), x);
    QuotientIs(WithEcho(k, y), Pow2(k - 1), Shr(y, Pow2(k - 2)), y);
  }

  lemma NoEchoExactly(k: nat, e: nat)
    requires k >= 2 && Fits(Pow2(k - 1), e)
    ensures WithEcho(k, e) == e <==> Fits(Pow2(k - 2), e)
  {
    var Q := Pow2(k - 2);
    hide Pow2, Shr, Trunc;
    TruncShr(e, Q);
    if Fits(Q, e) {
      TruncSmall(Q, e);
    } else {
      assert Shr(e, Q) > 0 by {
        assert Pow2(Q) * 0 == 0;
      }
      assert Pow2(Pow2(k - 1)) * Shr(e, Q) > 0 by {
        MulLess(Pow2(Pow2(k - 1)), 0, Shr(e, Q));
      }
    }
  }

  /** `mortonSplit` undoes `mortonInterleave` exactly if both numbers use only the lower quarter
      of the word. */
  lemma SplitUndoesExactly(k: nat, x: nat, y: nat)
    requires k >= 2 && Fits(Pow2(k - 1), x) && Fits(Pow2(k - 1), y)
    ensures Split(k, Interleave(k, x, y)) == (x, y) <==> Fits(Pow2(k - 2), x) && Fits(Pow2(k - 2), y)
  {
    hide Split, Interleave, WithEcho;
    SplitOfInterleave(k, x, y);
    NoEchoExactly(k, x);
    NoEchoExactly(k, y);
  }
}
