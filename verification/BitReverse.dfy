/** `BitOps::reverse`: swapping neighbours of doubling size. */
module BitReverse {
  import opened Words
  import opened BitCount

  function ReverseStep(k: nat, j: nat, n: nat): nat {
    MaskFits(k, j);
    Or(And(Shr(n, Pow2(j)), Mask(k, j)), And(Shl(Pow2(k), n, Pow2(j)), Not(Pow2(k), Mask(k, j))))
  }

  function ReverseOp(k: nat, j: nat, n: nat): nat {
    ReverseStep(k, j, if j == 0 then n else ReverseOp(k, j - 1, n))
  }

  function Reverse(k: nat, n: nat): nat
    requires k > 0
  {
    ReverseOp(k, k - 1, n)
  }

  /** `i` seen from the other end of its field of width `w`. */
  function Flip(i: nat, w: nat): nat
    requires w > 0
  {
    i - i % w + (w - 1 - i % w)
  }

  lemma FlipAt(w: nat, q: nat, o: nat)
    requires o < w
    ensures Flip(Pos(w, q) + o, w) == Pos(w, q) + (w - 1 - o)
  {
    DivModIs(w * q + o, w, q, o);
  }

  lemma Divide(i: nat, w: nat) returns (q: nat, o: nat)
    requires w > 0
    ensures o < w && i == w * q + o
  {
    q, o := i / w, i % w;
  }

  lemma FactorLess(w: nat, q: nat, m: nat)
    requires w * q < w * m
    ensures q < m
  {
    if q > m {
      MulLess(w, m, q);
    }
  }

  /** Field and offset of a position. */
  lemma SplitIndex(k: nat, j: nat, i: nat) returns (q: nat, o: nat)
    requires j < k && i < Pow2(k)
    ensures q < Pow2(k - j - 1) && o < Pow2(j + 1) && i == Pos(Pow2(j + 1), q) + o
  {
    Pow2Add(j + 1, k - j - 1);
    hide Pow2;
    q, o := Divide(i, Pow2(j + 1));
    FactorLess(Pow2(j + 1), q, Pow2(k - j - 1));
  }

  /** The step at one position: the bit comes from the other half of the field. */
  lemma ReverseStepBit(k: nat, j: nat, x: nat, q: nat, o: nat)
    requires j < k && q < Pow2(k - j - 1) && o < Pow2(j + 1)
    ensures var B, i := Pow2(j), Pos(Pow2(j + 1), q) + o;
            Bit(ReverseStep(k, j, x), i) <==> if o < B then Bit(x, i + B) else Bit(x, i - B)
  {
    MaskFits(k, j);
    hide Pow2, Bit, And, Or, Shr, Shl, Not, Mask, Pos;
    var W, B, M, i := Pow2(k), Pow2(j), Mask(k, j), Pos(Pow2(j + 1), q) + o;
    FieldInside(k, j, q, o);
    MaskInside(k, j, q, o);
    var low, high := And(Shr(x, B), M), And(Shl(W, x, B), Not(W, M));
    OrBit(low, high, i);
    assert Bit(low, i) <==> Bit(x, i + B) && o < B by {
      AndBit(Shr(x, B), M, i);
      ShrBit(x, B, i);
    }
    assert Bit(high, i) <==> i >= B && Bit(x, i - B) && o >= B by {
      AndBit(Shl(W, x, B), Not(W, M), i);
      NotBit(W, M, i);
      ShlBit(W, x, B, i);
    }
    assert ReverseStep(k, j, x) == Or(low, high);
  }

  /** Bits are flipped in every field of width `w`. */
  ghost predicate Flipped(k: nat, x: nat, n: nat, w: nat)
    requires w > 0
  {
    forall i :: 0 <= i < Pow2(k) ==> Bit(x, i) == Bit(n, Flip(i, w))
  }

  lemma FlippedAt(k: nat, x: nat, n: nat, w: nat, i: nat)
    requires w > 0 && Flipped(k, x, n, w) && i < Pow2(k)
    ensures Bit(x, i) == Bit(n, Flip(i, w))
  {
  }

  /** Flipping a field is flipping its halves and swapping them. */
  lemma FlipHalves(B: nat, w: nat, q: nat, o: nat)
    requires B > 0 && w == 2 * B && o < w
    ensures var i := Pos(w, q) + o;
            && (o < B ==> Flip(i + B, B) == Flip(i, w))
            && (o >= B ==> i >= B && Flip(i - B, B) == Flip(i, w))
  {
    hide Pos, Flip;
    FlipAt(w, q, o);
    PosDouble(B, q);
    if o < B {
      FlipAt(B, 2 * q + 1, o);
    } else {
      FlipAt(B, 2 * q, o - B);
    }
  }

  /** Where the bit of the step comes from: the same place of the other half. */
  function OtherHalf(B: nat, i: nat, o: nat): int {
    if o < B then i + B else i - B
  }

  lemma OtherHalfFlips(k: nat, j: nat, q: nat, o: nat)
    requires j < k && q < Pow2(k - j - 1) && o < Pow2(j + 1)
    ensures var i := Pos(Pow2(j + 1), q) + o;
            var i' := OtherHalf(Pow2(j), i, o);
            0 <= i' < Pow2(k) && Flip(i', Pow2(j)) == Flip(i, Pow2(j + 1))
  {
    assert Pow2(j + 1) == 2 * Pow2(j);
    hide Pow2, Pos, Flip;
    FlipHalves(Pow2(j), Pow2(j + 1), q, o);
    FieldBelow(k, j, q, o);
    if o < Pow2(j) {
      FieldBelow(k, j, q, o + Pow2(j));
    }
  }

  lemma FieldBelow(k: nat, j: nat, q: nat, o: nat)
    requires j < k && q < Pow2(k - j - 1) && o < Pow2(j + 1)
    ensures Pos(Pow2(j + 1), q) + o < Pow2(k)
  {
    hide Pow2, Pos;
    FieldInside(k, j, q, o);
  }

  lemma StepFlipsAt(k: nat, j: nat, x: nat, n: nat, q: nat, o: nat)
    requires j < k && Flipped(k, x, n, Pow2(j)) && q < Pow2(k - j - 1) && o < Pow2(j + 1)
    ensures var i := Pos(Pow2(j + 1), q) + o;
            Bit(ReverseStep(k, j, x), i) == Bit(n, Flip(i, Pow2(j + 1)))
  {
    hide Pow2, Bit, ReverseStep, Pos, Flip, Flipped;
    ReverseStepBit(k, j, x, q, o);
    OtherHalfFlips(k, j, q, o);
    FlippedAt(k, x, n, Pow2(j), OtherHalf(Pow2(j), Pos(Pow2(j + 1), q) + o, o));
  }

  lemma ReverseStepFlips(k: nat, j: nat, x: nat, n: nat, i: nat)
    requires j < k && Flipped(k, x, n, Pow2(j)) && i < Pow2(k)
    ensures Bit(ReverseStep(k, j, x), i) == Bit(n, Flip(i, Pow2(j + 1)))
  {
    hide Pow2, Bit, ReverseStep, Pos, Flip, Flipped;
    var q, o := SplitIndex(k, j, i);
    StepFlipsAt(k, j, x, n, q, o);
  }

  lemma {:induction false} ReverseOpFlips(k: nat, j: nat, n: nat)
    requires j < k && Fits(Pow2(k), n)
    ensures Fits(Pow2(k), ReverseOp(k, j, n)) && Flipped(k, ReverseOp(k, j, n), n, Pow2(j + 1))
    decreases j
  {
    hide ReverseStep, Bit, Flip;
    var x := if j == 0 then n else ReverseOp(k, j - 1, n);
    assert Flipped(k, x, n, Pow2(j)) by {
      if j == 0 {
        forall i | 0 <= i < Pow2(k)
          ensures Bit(x, i) == Bit(n, Flip(i, Pow2(0)))
        {
          FlipOne(i);
        }
      } else {
        ReverseOpFlips(k, j - 1, n);
      }
    }
    forall i | 0 <= i < Pow2(k)
      ensures Bit(ReverseStep(k, j, x), i) == Bit(n, Flip(i, Pow2(j + 1)))
    {
      ReverseStepFlips(k, j, x, n, i);
    }
    ReverseStepFits(k, j, x);
  }

  lemma FlipOne(i: nat)
    ensures Flip(i, Pow2(0)) == i
  {
  }

  lemma ReverseStepFits(k: nat, j: nat, x: nat)
    ensures Fits(Pow2(k), ReverseStep(k, j, x))
  {
    var W, B, M := Pow2(k), Pow2(j), Mask(k, j);
    MaskFits(k, j);
    NotBit(W, M, 0);
    AndFits(W, Shr(x, B), M);
    AndFits(W, Shl(W, x, B), Not(W, M));
    OrFits(W, And(Shr(x, B), M), And(Shl(W, x, B), Not(W, M)));
  }

  /** `reverse` sends bit `i` to bit `W - 1 - i`. */
  lemma ReverseIsMirror(k: nat, n: nat, i: nat)
    requires k > 0 && Fits(Pow2(k), n) && i < Pow2(k)
    ensures Fits(Pow2(k), Reverse(k, n))
    ensures Bit(Reverse(k, n), i) == Bit(n, Pow2(k) - 1 - i)
  {
    var w := Pow2(k);
    ReverseOpFlips(k, k - 1, n);
    PosZero(w);
    FlipAt(w, 0, i);
  }

  /** Reversing twice gives the word back. */
  lemma ReverseTwice(k: nat, n: nat)
    requires k > 0 && Fits(Pow2(k), n)
    ensures Reverse(k, Reverse(k, n)) == n
  {
    var w := Pow2(k);
    hide Reverse, Bit;
    ReverseIsMirror(k, n, 0);
    ReverseIsMirror(k, Reverse(k, n), 0);
    forall i | 0 <= i < w
      ensures Bit(Reverse(k, Reverse(k, n)), i) == Bit(n, i)
    {
      ReverseIsMirror(k, Reverse(k, n), i);
      ReverseIsMirror(k, n, w - 1 - i);
    }
    SameBits(w, Reverse(k, Reverse(k, n)), n);
  }
}
