/** `BitOps::rzero`, `log2`, `islog2`, `ceil2` and `parity`: binary searches and folds over the
    bits of a word. The word has `W = 2^k` bits, and the template parameter `B` is `2^j`. */
module BitScan {
  import opened Words
  import opened BitCount

  // ----- the lowest bit ----------------------------------------------------------------------------

  function RZeroOp(k: nat, j: nat, n: nat, c: nat): nat
    requires c >= 2 * Pow2(j)
  {
    var W := Pow2(k);
    if j == 0 then
      var (m, d) := if And(n, Mask(k, 0)) != 0 then (Shl(W, n, 1), c - 1) else (n, c);
      if m != 0 then d - 1 else d
    else if And(n, Mask(k, j)) != 0 then RZeroOp(k, j - 1, Shl(W, n, Pow2(j)), c - Pow2(j))
    else RZeroOp(k, j - 1, n, c)
  }

  function RZero(k: nat, n: nat): nat
    requires k > 0
  {
    RZeroOp(k, k - 1, n, Pow2(k))
  }

  /** Bit `i` is the lowest set bit of `n`. */
  ghost predicate Lowest(n: nat, i: nat) {
    Bit(n, i) && forall h :: 0 <= h < i ==> !Bit(n, h)
  }

  lemma {:induction false} LowestExists(W: nat, n: nat) returns (i: nat)
    requires Fits(W, n) && n != 0
    ensures i < W && Lowest(n, i)
    decreases W
  {
    if n % 2 == 1 {
      i := 0;
    } else {
      i := LowestExists(W - 1, n / 2);
      forall h | 0 <= h < i + 1
        ensures !Bit(n, h)
      {
        if h > 0 {
          assert !Bit(n / 2, h - 1);
        }
      }
      i := i + 1;
    }
  }

  /** The lower half of the last field starts at `W - 2B`. */
  lemma MaskAtTop(k: nat, j: nat, i: nat)
    requires j < k && Pow2(k) - Pow2(j + 1) <= i < Pow2(k)
    ensures Bit(Mask(k, j), i) <==> i < Pow2(k) - Pow2(j)
  {
    var w, m := Pow2(j + 1), Pow2(k - j - 1);
    assert w == 2 * Pow2(j);
    Pow2Add(j + 1, k - j - 1);
    PosNext(w, m - 1);
    assert Pow2(k) == Pos(w, m);
    hide Pow2, Pos, Mask, Bit;
    MaskInside(k, j, m - 1, i - Pos(w, m - 1));
  }

  /** With only the last `2B` bits in use, masking asks whether the lowest bit is in their lower
      half. */
  lemma MaskFindsLowest(k: nat, j: nat, n: nat, i: nat)
    requires j < k && Fits(Pow2(k), n) && Lowest(n, i) && Pow2(k) - Pow2(j + 1) <= i < Pow2(k)
    ensures And(n, Mask(k, j)) != 0 <==> i < Pow2(k) - Pow2(j)
  {
    MaskFits(k, j);
    hide Pow2, Mask, Bit, And;
    if i < Pow2(k) - Pow2(j) {
      MaskAtTop(k, j, i);
      AndBit(n, Mask(k, j), i);
      BitNotZero(And(n, Mask(k, j)), i);
    } else if And(n, Mask(k, j)) != 0 {
      AndFits(Pow2(k), n, Mask(k, j));
      var h := SomeBit(Pow2(k), And(n, Mask(k, j)));
      AndBit(n, Mask(k, j), h);
      MaskAtTop(k, j, h);
      assert false;
    }
  }

  lemma ShiftLowest(W: nat, n: nat, i: nat, s: nat)
    requires Lowest(n, i) && i + s < W
    ensures Lowest(Shl(W, n, s), i + s)
  {
    hide Bit, Shl;
    ShlBit(W, n, s, i + s);
    forall h | 0 <= h < i + s
      ensures !Bit(Shl(W, n, s), h)
    {
      ShlBit(W, n, s, h);
    }
  }

  lemma LowestNotZero(n: nat, i: nat)
    requires Lowest(n, i)
    ensures n != 0
  {
    BitNotZero(n, i);
  }

  /** The last step decides between the two highest bits. */
  lemma RZeroLast(k: nat, n: nat, c: nat, i: nat)
    requires k > 0 && Fits(Pow2(k), n) && c >= 2 && Lowest(n, i) && Pow2(k) - 2 <= i < Pow2(k)
    ensures RZeroOp(k, 0, n, c) == c - (Pow2(k) - i)
  {
    assert Pow2(1) == 2 && Pow2(0) == 1;
    hide Bit, And, Shl, Mask, Lowest;
    MaskFindsLowest(k, 0, n, i);
    LowestNotZero(n, i);
    if i < Pow2(k) - 1 {
      ShiftLowest(Pow2(k), n, i, 1);
      LowestNotZero(Shl(Pow2(k), n, 1), i + 1);
    }
  }

  lemma {:induction false} RZeroOpIs(k: nat, j: nat, n: nat, c: nat, i: nat)
    requires j < k && Fits(Pow2(k), n) && c >= 2 * Pow2(j)
    requires Lowest(n, i) && Pow2(k) - 2 * Pow2(j) <= i < Pow2(k)
    ensures RZeroOp(k, j, n, c) == c - (Pow2(k) - i)
    decreases j
  {
    assert Pow2(0) == 1 && Pow2(j + 1) == 2 * Pow2(j);
    if j == 0 {
      RZeroLast(k, n, c, i);
    } else {
      var B := Pow2(j);
      assert B == 2 * Pow2(j - 1);
      hide Bit, And, Shl, Mask, Lowest, Pow2;
      MaskFindsLowest(k, j, n, i);
      if i < Pow2(k) - B {
        ShiftLowest(Pow2(k), n, i, B);
        ShlFits(Pow2(k), n, B);
        RZeroOpIs(k, j - 1, Shl(Pow2(k), n, B), c - B, i + B);
      } else {
        RZeroOpIs(k, j - 1, n, c, i);
      }
    }
  }

  lemma ShlFits(W: nat, n: nat, s: nat)
    ensures Fits(W, Shl(W, n, s))
  {
  }

  lemma {:induction false} RZeroOpOfZero(k: nat, j: nat, c: nat)
    requires c >= 2 * Pow2(j)
    ensures RZeroOp(k, j, 0, c) == c
    decreases j
  {
    assert And(0, Mask(k, j)) == 0;
    hide And, Mask;
    if j > 0 {
      RZeroOpOfZero(k, j - 1, c);
    }
  }

  predicate PowerDivides(s: nat, n: nat) {
    n % Pow2(s) == 0
  }

  lemma PowerDividesIff(s: nat, n: nat)
    ensures PowerDivides(s, n) <==> Trunc(s, n) == 0
  {
    TruncShr(n, s);
    DivModIs(n, Pow2(s), Shr(n, s), Trunc(s, n));
  }

  /** A power of two divides a number exactly if all bits below it are zero. */
  lemma LowestDivides(n: nat, i: nat, s: nat)
    requires Lowest(n, i)
    ensures PowerDivides(s, n) <==> s <= i
  {
    hide PowerDivides, Bit, Trunc;
    PowerDividesIff(s, n);
    if s > i {
      TruncBit(s, n, i);
      BitNotZero(Trunc(s, n), i);
    } else if Trunc(s, n) != 0 {
      var h := SomeBit(s, Trunc(s, n));
      TruncBit(s, n, h);
    }
  }

  lemma RZeroIs(k: nat, n: nat, i: nat)
    requires k > 0 && Fits(Pow2(k), n) && Lowest(n, i) && i < Pow2(k)
    ensures RZero(k, n) == i
  {
    RZeroOpIs(k, k - 1, n, Pow2(k), i);
  }

  lemma RZeroOfZero(k: nat)
    requires k > 0
    ensures RZero(k, 0) == Pow2(k)
  {
    RZeroOpOfZero(k, k - 1, Pow2(k));
  }

  /** `2^rzero(n)` is the largest power of two that divides `n`; `rzero(0)` is the word width. */
  lemma RZeroIsLargestPower(k: nat, n: nat)
    requires k > 0 && Fits(Pow2(k), n)
    ensures n == 0 ==> RZero(k, n) == Pow2(k)
    ensures n > 0 ==> RZero(k, n) < Pow2(k)
    ensures n > 0 ==> forall s: nat :: PowerDivides(s, n) <==> s <= RZero(k, n)
  {
    hide RZero, Lowest, PowerDivides, Pow2, Bit;
    if n == 0 {
      RZeroOfZero(k);
    } else {
      var i := LowestExists(Pow2(k), n);
      RZeroIs(k, n, i);
      forall s: nat
        ensures PowerDivides(s, n) <==> s <= i
      {
        LowestDivides(n, i, s);
      }
    }
  }

  // ----- the highest bit ---------------------------------------------------------------------------

  function Log2Op(k: nat, j: nat, n: nat, c: nat): nat {
    MaskFits(k, j);
    var rev := Not(Pow2(k), Mask(k, j));
    if j == 0 then Or(c, if And(n, rev) != 0 then 1 else 0)
    else if And(n, rev) != 0 then Log2Op(k, j - 1, Shr(n, Pow2(j)), Or(c, Pow2(j)))
    else Log2Op(k, j - 1, n, c)
  }

  function Log2(k: nat, n: nat): nat
    requires k > 0
  {
    Log2Op(k, k - 1, n, 0)
  }

  /** With only the first `2B` bits in use, the reversed mask asks for a bit in their upper half. */
  lemma RevMaskFindsHigh(k: nat, j: nat, n: nat)
    requires j < k && Fits(Pow2(j + 1), n)
    ensures Fits(Pow2(k), Mask(k, j))
    ensures And(n, Not(Pow2(k), Mask(k, j))) != 0 <==> !Fits(Pow2(j), n)
  {
    MaskFits(k, j);
    var w, B, rev := Pow2(j + 1), Pow2(j), Not(Pow2(k), Mask(k, j));
    assert w == 2 * B;
    PosZero(w);
    FieldInside(k, j, 0, w - 1);
    hide Pow2, Mask, Bit, And, Not, Pos;
    forall h | 0 <= h < w
      ensures Bit(And(n, rev), h) <==> Bit(n, h) && h >= B
    {
      AndBit(n, rev, h);
      NotBit(Pow2(k), Mask(k, j), h);
      MaskInside(k, j, 0, h);
    }
    if And(n, rev) != 0 {
      AndFits(w, n, rev);
      var h := SomeBit(w, And(n, rev));
      if Fits(B, n) {
        HighBitsZero(B, n, h);
      }
    } else {
      forall h | B <= h < w
        ensures !Bit(n, h)
      {
        ZeroBit(h);
      }
      FitsIfZero(B, w, n);
    }
  }

  /** Setting a bit below which a multiple ends is adding it. */
  lemma OrBelow(c: nat, j: nat)
    requires c % (2 * Pow2(j)) == 0
    ensures Or(c, Pow2(j)) == c + Pow2(j)
  {
    hide Or, And;
    AndSmallPower(c, j);
    OrIsSum(c, Pow2(j));
  }

  lemma {:induction false} AndSmallPower(c: nat, j: nat)
    requires c % (2 * Pow2(j)) == 0
    ensures And(c, Pow2(j)) == 0
    decreases j
  {
    var d := c / (2 * Pow2(j));
    assert c == 2 * (Pow2(j) * d);
    if j > 0 {
      assert Pow2(j) * d == 2 * (Pow2(j - 1) * d);
      DivModIs(c / 2, 2 * Pow2(j - 1), d, 0);
      AndSmallPower(c / 2, j - 1);
      assert Pow2(j) / 2 == Pow2(j - 1);
    } else {
      assert And(c / 2, 0) == 0;
    }
  }

  lemma MultipleBelow(c: nat, j: nat)
    requires j > 0 && c % (2 * Pow2(j)) == 0
    ensures c % (2 * Pow2(j - 1)) == 0 && (c + Pow2(j)) % (2 * Pow2(j - 1)) == 0
  {
    var d := c / (2 * Pow2(j));
    var w := 2 * Pow2(j - 1);
    assert Pow2(j) == w;
    assert c == w * (2 * d);
    DivModIs(c, w, 2 * d, 0);
    assert c + w == w * (2 * d + 1);
    DivModIs(c + w, w, 2 * d + 1, 0);
  }

  lemma ShrNotZero(n: nat, s: nat)
    requires !Fits(s, n)
    ensures Shr(n, s) > 0
  {
    hide Shr, Trunc, Pow2;
    TruncShr(n, s);
    assert Pow2(s) * 0 == 0;
  }

  /** `r` is the position of the highest bit of `n`. */
  predicate IsFloorLog(n: nat, r: nat) {
    Pow2(r) <= n < 2 * Pow2(r)
  }

  /** The highest bit of the quotient is the highest bit, further down. */
  lemma FloorLogOfShr(n: nat, s: nat, r: nat)
    requires IsFloorLog(Shr(n, s), r)
    ensures IsFloorLog(n, s + r)
  {
    hide Shr, Trunc, Pow2;
    TruncShr(n, s);
    ScaleBounds(n, s, Shr(n, s), Trunc(s, n), r);
  }

  lemma Log2Step(k: nat, j: nat, n: nat, c: nat)
    requires 0 < j < k && Fits(Pow2(j + 1), n) && c % (2 * Pow2(j)) == 0
    ensures Log2Op(k, j, n, c) ==
            if Fits(Pow2(j), n) then Log2Op(k, j - 1, n, c)
            else Log2Op(k, j - 1, Shr(n, Pow2(j)), c + Pow2(j))
  {
    RevMaskFindsHigh(k, j, n);
    OrBelow(c, j);
    hide And, Or, Not, Mask, Shr, Pow2;
  }

  lemma Log2Last(k: nat, n: nat, c: nat)
    requires k > 0 && n > 0 && Fits(2, n) && c % 2 == 0
    ensures Log2Op(k, 0, n, c) == if n < 2 then c else c + 1
  {
    assert Pow2(0) == 1 && Pow2(1) == 2;
    RevMaskFindsHigh(k, 0, n);
    OrBelow(c, 0);
    assert Or(c, 0) == c;
    hide And, Or, Not, Mask;
  }

  /** The search adds the position of the highest bit to `c`. */
  lemma {:induction false} Log2OpIs(k: nat, j: nat, n: nat, c: nat)
    requires j < k && n > 0 && Fits(Pow2(j + 1), n) && c % (2 * Pow2(j)) == 0
    ensures c <= Log2Op(k, j, n, c) && IsFloorLog(n, Log2Op(k, j, n, c) - c)
    decreases j
  {
    if j == 0 {
      assert Pow2(0) == 1 && Pow2(1) == 2 && Pow2(2) == 4;
      Log2Last(k, n, c);
    } else {
      assert Pow2(j + 1) == 2 * Pow2(j) && Pow2(j + 1) - Pow2(j) == Pow2(j);
      MultipleBelow(c, j);
      Log2Step(k, j, n, c);
      ShrRest(Pow2(j), Pow2(j + 1), n);
      hide Log2Op, Shr, Pow2, IsFloorLog;
      if Fits(Pow2(j), n) {
        Log2OpIs(k, j - 1, n, c);
      } else {
        ShrNotZero(n, Pow2(j));
        Log2OpIs(k, j - 1, Shr(n, Pow2(j)), c + Pow2(j));
        FloorLogOfShr(n, Pow2(j), Log2Op(k, j - 1, Shr(n, Pow2(j)), c + Pow2(j)) - (c + Pow2(j)));
      }
    }
  }

  lemma ScaleBounds(n: nat, s: nat, q: nat, t: nat, r: nat)
    requires n == Pow2(s) * q + t && t < Pow2(s) && Pow2(r) <= q < 2 * Pow2(r)
    ensures Pow2(s + r) <= n < 2 * Pow2(s + r)
  {
    Pow2Add(s, r);
    hide Pow2;
    var p := Pow2(s);
    assert p * q >= p * Pow2(r);
    MulLess(p, q, 2 * Pow2(r));
    assert p * (2 * Pow2(r)) == 2 * (p * Pow2(r));
  }

  /** `2^log2(n) <= n < 2^(log2(n)+1)`. */
  lemma Log2IsFloor(k: nat, n: nat)
    requires k > 0 && Fits(Pow2(k), n) && n > 0
    ensures Pow2(Log2(k, n)) <= n < Pow2(Log2(k, n) + 1)
  {
    Log2OpIs(k, k - 1, n, 0);
  }

  ghost predicate IsPower(p: nat) {
    exists r: nat :: p == Pow2(r)
  }

  /** Zero passes the test for a power of two as well. */
  predicate IsLog2(k: nat, n: nat) {
    And(n, if n == 0 then Pow2(Pow2(k)) - 1 else n - 1) == 0
  }

  lemma {:induction false} PredecessorOfOdd(n: nat)
    requires n > 1
    ensures n % 2 == 1 ==> And(n, n - 1) != 0
    ensures n % 2 == 0 ==> And(n, n - 1) == 2 * And(n / 2, n / 2 - 1)
    decreases n
  {
    if n % 2 == 1 {
      assert (n - 1) / 2 == n / 2;
      SameAnd(n / 2);
    } else {
      assert (n - 1) / 2 == n / 2 - 1;
    }
  }

  lemma {:induction false} SameAnd(n: nat)
    ensures And(n, n) == n
    decreases n
  {
    if n != 0 {
      SameAnd(n / 2);
    }
  }

  /** `islog2` is true of the powers of two and of zero, and of nothing else. */
  lemma {:induction false} IsLog2Exactly(k: nat, n: nat)
    ensures IsLog2(k, n) <==> n == 0 || IsPower(n)
    decreases n
  {
    if n > 1 {
      PredecessorOfOdd(n);
      IsLog2Exactly(k, n / 2);
      if n % 2 == 0 {
        if r: nat :| n / 2 == Pow2(r) {
          assert n == Pow2(r + 1);
        }
        if r: nat :| n == Pow2(r) {
          assert n / 2 == Pow2(r - 1);
        }
      } else {
        forall r: nat
          ensures n != Pow2(r)
        {
        }
      }
    } else {
      assert Pow2(0) == 1;
      assert IsPower(1) && (n == 0 || n == 1);
      assert And(1, 0) == 0;
    }
  }

  // ----- the next power of two -----------------------------------------------------------------------

  function Ceil2Op(j: nat, n: nat): nat {
    var m := if j == 0 then n else Ceil2Op(j - 1, n);
    Or(m, Shr(m, Pow2(j)))
  }

  /** The subtraction and the addition wrap around. */
  function Ceil2(k: nat, n: nat): nat
    requires k > 0
  {
    var W := Pow2(k);
    Trunc(W, Ceil2Op(k - 1, if n == 0 then Pow2(W) - 1 else n - 1) + 1)
  }

  /** Some bit among the `w` bits from `i` on is set. */
  ghost predicate AnyBit(n: nat, i: nat, w: nat) {
    exists h :: i <= h < i + w && Bit(n, h)
  }

  /** Every bit has been spread over the `w - 1` bits below it. */
  lemma {:induction false} Ceil2OpBit(j: nat, n: nat, i: nat)
    ensures Bit(Ceil2Op(j, n), i) <==> AnyBit(n, i, Pow2(j + 1))
    decreases j
  {
    var B := Pow2(j);
    assert Pow2(j + 1) == B + B;
    hide Or, Shr, Bit, Pow2;
    if j == 0 {
      OrBit(n, Shr(n, B), i);
      ShrBit(n, B, i);
      OneBelow();
    } else {
      var m := Ceil2Op(j - 1, n);
      OrBit(m, Shr(m, B), i);
      ShrBit(m, B, i);
      Ceil2OpBit(j - 1, n, i);
      Ceil2OpBit(j - 1, n, i + B);
    }
  }

  lemma OneBelow()
    ensures Pow2(0) == 1
  {
  }

  lemma {:induction false} Ceil2OpFits(j: nat, W: nat, n: nat)
    requires Fits(W, n)
    ensures Fits(W, Ceil2Op(j, n))
    decreases j
  {
    hide Or, Shr;
    var m := if j == 0 then n else Ceil2Op(j - 1, n);
    if j > 0 {
      Ceil2OpFits(j - 1, W, n);
    }
    ShrFits(W, m, Pow2(j));
    OrFits(W, m, Shr(m, Pow2(j)));
  }

  /** The ones below a power of two. */
  lemma {:induction false} OnesBits(r: nat, i: nat)
    ensures Bit(Pow2(r) - 1, i) <==> i < r
    decreases r
  {
    if r == 0 {
      ZeroBit(i);
    } else {
      assert (Pow2(r) - 1) / 2 == Pow2(r - 1) - 1;
      if i > 0 {
        OnesBits(r - 1, i - 1);
      }
    }
  }

  lemma FloorLogBits(n: nat, r: nat, i: nat)
    requires IsFloorLog(n, r)
    ensures Bit(n, r)
    ensures i > r ==> !Bit(n, i)
  {
    assert Fits(r + 1, n);
    if i > r {
      HighBitsZero(r + 1, n, i);
    }
    TruncShr(n, r);
    QuotientIs(n, r, 1, n - Pow2(r));
    ShrBit(n, r, 0);
  }

  /** Smearing the bits of a number fills it up to its highest bit. */
  lemma Ceil2OpFills(k: nat, n: nat, r: nat)
    requires k > 0 && Fits(Pow2(k), n) && IsFloorLog(n, r)
    ensures Ceil2Op(k - 1, n) == Pow2(r + 1) - 1 && r < Pow2(k)
  {
    var W := Pow2(k);
    FloorLogFits(n, r, W);
    Pow2Monotone(r + 1, W);
    Ceil2OpFits(k - 1, W, n);
    hide Bit, Pow2, IsFloorLog, Ceil2Op;
    var filled: nat, ones: nat := Ceil2Op(k - 1, n), Pow2(r + 1) - 1;
    forall i | 0 <= i < W
      ensures Bit(filled, i) == Bit(ones, i)
    {
      Ceil2OpBit(k - 1, n, i);
      OnesBits(r + 1, i);
      AnyBitUpTo(n, r, i, W);
    }
    SameBits(W, filled, ones);
  }

  lemma AnyBitUpTo(n: nat, r: nat, i: nat, W: nat)
    requires IsFloorLog(n, r) && r < W
    ensures AnyBit(n, i, W) <==> i <= r
  {
    hide Bit, IsFloorLog;
    FloorLogBits(n, r, r);
    if AnyBit(n, i, W) {
      var h :| i <= h < i + W && Bit(n, h);
      FloorLogBits(n, r, h);
    }
  }

  lemma FloorLogFits(n: nat, r: nat, W: nat)
    requires IsFloorLog(n, r) && Fits(W, n)
    ensures r < W
  {
    if r >= W {
      Pow2Monotone(W, r);
    }
  }

  lemma {:induction false} Pow2Monotone(a: nat, b: nat)
    requires a <= b
    ensures Pow2(a) <= Pow2(b)
    decreases b
  {
    if a < b {
      Pow2Monotone(a, b - 1);
    }
  }

  /** `p` is the least power of two that is not below `n`. */
  ghost predicate IsCeilPower(n: nat, p: nat) {
    IsPower(p) && n <= p && forall q: nat :: IsPower(q) && n <= q ==> p <= q
  }

  lemma Ceil2Value(k: nat, n: nat, r: nat)
    requires k > 0 && Fits(Pow2(k), n) && n > 1 && IsFloorLog(n - 1, r)
    ensures Ceil2(k, n) == if r + 1 < Pow2(k) then Pow2(r + 1) else 0
  {
    var W := Pow2(k);
    Ceil2OpFills(k, n - 1, r);
    if r + 1 < W {
      Pow2Less(r + 1, W);
      TruncSmall(W, Pow2(r + 1));
    } else {
      assert Pow2(W) * 1 + 0 == Pow2(W);
      QuotientIs(Pow2(W), W, 1, 0);
    }
  }

  lemma Ceil2OfZero(k: nat)
    requires k > 0
    ensures Ceil2(k, 0) == 0
  {
    var W := Pow2(k);
    assert Pow2(W) == 2 * Pow2(W - 1);
    assert IsFloorLog(Pow2(W) - 1, W - 1) by {
      assert Pow2(W - 1) >= 1;
    }
    Ceil2OpFills(k, Pow2(W) - 1, W - 1);
    assert Pow2(W) * 1 + 0 == Pow2(W);
    QuotientIs(Pow2(W), W, 1, 0);
  }

  lemma {:induction false} Ceil2OpOfZero(j: nat)
    ensures Ceil2Op(j, 0) == 0
    decreases j
  {
    ShrOfZero(Pow2(j));
    if j > 0 {
      Ceil2OpOfZero(j - 1);
    }
  }

  lemma {:induction false} ShrOfZero(s: nat)
    ensures Shr(0, s) == 0
  {
    if s > 0 {
      ShrOfZero(s - 1);
    }
  }

  lemma Ceil2OfOne(k: nat)
    requires k > 0
    ensures Ceil2(k, 1) == 1
  {
    Ceil2OpOfZero(k - 1);
    Pow2Above(Pow2(k));
    assert Pow2(Pow2(k)) == 2 * Pow2(Pow2(k) - 1);
    TruncSmall(Pow2(k), 1);
  }

  lemma {:induction false} FloorLogExists(n: nat) returns (r: nat)
    requires n > 0
    ensures IsFloorLog(n, r)
    decreases n
  {
    if n == 1 {
      r := 0;
    } else {
      r := FloorLogExists(n / 2);
      r := r + 1;
    }
  }

  /** The power above the highest bit of `n - 1` is the least power not below `n`. */
  lemma CeilPowerOf(n: nat, r: nat)
    requires n > 1 && IsFloorLog(n - 1, r)
    ensures IsCeilPower(n, Pow2(r + 1))
  {
    assert Pow2(r + 1) == 2 * Pow2(r);
    forall q: nat | IsPower(q) && n <= q
      ensures Pow2(r + 1) <= q
    {
      var s: nat :| q == Pow2(s);
      if s <= r {
        Pow2Monotone(s, r);
      } else {
        Pow2Monotone(r + 1, s);
      }
    }
  }

  /** `ceil2` gives the least power of two not below `n` exactly if there is one in the word and
      `n` is not zero; otherwise it gives zero. */
  lemma Ceil2Exactly(k: nat, n: nat)
    requires k > 0 && Fits(Pow2(k), n)
    ensures IsCeilPower(n, Ceil2(k, n)) <==> 1 <= n <= Pow2(Pow2(k) - 1)
    ensures !(1 <= n <= Pow2(Pow2(k) - 1)) ==> Ceil2(k, n) == 0
  {
    var W := Pow2(k);
    if n == 0 {
      Ceil2OfZero(k);
      ZeroIsNoPower();
    } else if n == 1 {
      Ceil2OfOne(k);
      assert 1 == Pow2(0);
      assert IsPower(1);
      Pow2Above(W);
    } else {
      var r := FloorLogExists(n - 1);
      Ceil2Value(k, n, r);
      CeilPowerOf(n, r);
      ZeroIsNoPower();
      FloorLogFits(n - 1, r, W);
      if r + 1 < W {
        Pow2Monotone(r + 1, W - 1);
      } else {
        assert r == W - 1;
      }
    }
  }

  lemma ZeroIsNoPower()
    ensures !IsPower(0)
  {
  }

  // ----- parity ------------------------------------------------------------------------------------

  function ParityOp(j: nat, n: nat): nat {
    var m := Xor(n, Shr(n, Pow2(j)));
    if j == 0 then m else ParityOp(j - 1, m)
  }

  predicate Parity(k: nat, n: nat)
    requires k > 0
  {
    And(ParityOp(k - 1, n), 1) != 0
  }

  lemma {:induction false} PopOfXor(a: nat, b: nat, i: nat, w: nat)
    ensures Pop(Xor(a, b), i, w) % 2 == (Pop(a, i, w) + Pop(b, i, w)) % 2
    decreases w
  {
    hide Xor, Bit;
    if w > 0 {
      XorBit(a, b, i);
      PopOfXor(a, b, i + 1, w - 1);
    }
  }

  lemma {:induction false} PopOfShr(n: nat, s: nat, i: nat, w: nat)
    ensures Pop(Shr(n, s), i, w) == Pop(n, s + i, w)
    decreases w
  {
    hide Shr, Bit;
    if w > 0 {
      ShrBit(n, s, i);
      PopOfShr(n, s, i + 1, w - 1);
    }
  }

  /** Folding keeps the parity of the `2B` lowest bits in the lowest bit. */
  lemma {:induction false} ParityOpIs(j: nat, n: nat)
    ensures Bit(ParityOp(j, n), 0) <==> Pop(n, 0, Pow2(j + 1)) % 2 == 1
    decreases j
  {
    var B := Pow2(j);
    var m := Xor(n, Shr(n, B));
    assert Pow2(j + 1) == B + B;
    hide Xor, Shr, Bit;
    PopAdd(n, 0, B, B);
    PopOfXor(n, Shr(n, B), 0, B);
    PopOfShr(n, B, 0, B);
    if j == 0 {
      OneBelow();
      assert Pop(m, 1, 0) == 0;
    } else {
      ParityOpIs(j - 1, m);
    }
  }

  /** `parity` is true exactly if `count` is odd. */
  lemma ParityIsOddCount(k: nat, n: nat)
    requires k > 0 && Fits(Pow2(k), n)
    ensures Parity(k, n) <==> Count(k, n) % 2 == 1
  {
    hide Count, ParityOp, Pop, And, Bit;
    CountIsPop(k, n);
    ParityOpIs(k - 1, n);
    LowestBitTest(ParityOp(k - 1, n));
  }

  lemma LowestBitTest(n: nat)
    ensures And(n, 1) != 0 <==> Bit(n, 0)
  {
    assert And(n / 2, 0) == 0;
  }
}
