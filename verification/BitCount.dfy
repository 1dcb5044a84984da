/** `BitOps::count`: adding up bits in fields of doubling width. The word has `W = 2^k` bits, and
    the template parameter `B` is `2^j`. */
module BitCount {
  import opened Words
  import opened BitPattern

  function Mask(k: nat, j: nat): nat {
    Magic(Pow2(k), Pow2(j))
  }

  lemma MaskBit(k: nat, j: nat, i: nat)
    requires j < k
    ensures Bit(Mask(k, j), i) <==> i < Pow2(k) && i % Pow2(j + 1) < Pow2(j)
  {
    Pow2Add(j + 1, k - j - 1);
    MagicBit(Pow2(k), Pow2(j), Pow2(k - j - 1), i);
  }

  lemma MaskFits(k: nat, j: nat)
    ensures Fits(Pow2(k), Mask(k, j))
  {
    MagicFits(Pow2(k), Pow2(j));
  }

  // ----- counting ----------------------------------------------------------------------------------

  /** Adds the two halves of every `2B`-bit field. */
  function CountStep(k: nat, j: nat, n: nat): nat {
    Trunc(Pow2(k), And(Shr(n, Pow2(j)), Mask(k, j)) + And(n, Mask(k, j)))
  }

  function CountOp(k: nat, j: nat, n: nat): nat {
    CountStep(k, j, if j == 0 then n else CountOp(k, j - 1, n))
  }

  function Count(k: nat, n: nat): nat
    requires k > 0
  {
    CountOp(k, k - 1, n)
  }

  /** The number of set bits among the `w` bits from `i` on. */
  function Pop(n: nat, i: nat, w: nat): (c: nat)
    ensures c <= w
    decreases w
  {
    if w == 0 then 0 else (if Bit(n, i) then 1 else 0) + Pop(n, i + 1, w - 1)
  }

  function Field(n: nat, i: nat, w: nat): (f: nat)
    ensures f < Pow2(w)
  {
    Trunc(w, Shr(n, i))
  }

  lemma {:induction false} PopAdd(n: nat, i: nat, a: nat, b: nat)
    ensures Pop(n, i, a + b) == Pop(n, i, a) + Pop(n, i + a, b)
    decreases a
  {
    if a > 0 {
      PopAdd(n, i + 1, a - 1, b);
    }
  }

  lemma FieldBit(n: nat, i: nat, w: nat, o: nat)
    ensures Bit(Field(n, i, w), o) <==> o < w && Bit(n, i + o)
  {
    TruncBit(w, Shr(n, i), o);
    ShrBit(n, i, o);
  }

  /** Where field `t` of width `w` starts. */
  function Pos(w: nat, t: nat): nat {
    w * t
  }

  lemma PosZero(w: nat)
    ensures Pos(w, 0) == 0
  {
  }

  lemma PosNext(w: nat, t: nat)
    ensures Pos(w, t + 1) == Pos(w, t) + w
  {
  }

  lemma {:induction false} PosDouble(b: nat, t: nat)
    ensures Pos(2 * b, t) == Pos(b, 2 * t) && Pos(2 * b, t) + b == Pos(b, 2 * t + 1)
  {
    if t == 0 {
      PosZero(b);
      PosZero(2 * b);
      PosNext(b, 0);
    } else {
      PosDouble(b, t - 1);
      PosNext(2 * b, t - 1);
      PosNext(b, 2 * t - 2);
      PosNext(b, 2 * t - 1);
      PosNext(b, 2 * t);
    }
  }

  /** Every field of width `w` among the first `m` holds the number of set bits of `n` there. */
  ghost predicate HoldsCounts(x: nat, n: nat, w: nat, m: nat) {
    forall t :: 0 <= t < m ==> Field(x, Pos(w, t), w) == Pop(n, Pos(w, t), w)
  }

  lemma FieldInside(k: nat, j: nat, t: nat, o: nat)
    requires j < k && t < Pow2(k - j - 1) && o < Pow2(j + 1)
    ensures Pos(Pow2(j + 1), t) + o < Pow2(k)
    ensures (Pos(Pow2(j + 1), t) + o) % Pow2(j + 1) == o
  {
    hide Pow2;
    Pow2Add(j + 1, k - j - 1);
    MulLess(Pow2(j + 1), t, Pow2(k - j - 1));
    DivModIs(Pow2(j + 1) * t + o, Pow2(j + 1), t, o);
  }

  /** Inside a field the mask is one exactly in the lower half. */
  lemma MaskInside(k: nat, j: nat, t: nat, o: nat)
    requires j < k && t < Pow2(k - j - 1) && o < Pow2(j + 1)
    ensures Bit(Mask(k, j), Pos(Pow2(j + 1), t) + o) <==> o < Pow2(j)
  {
    hide Pow2, Pos, Bit, Mask;
    FieldInside(k, j, t, o);
    MaskBit(k, j, Pos(Pow2(j + 1), t) + o);
  }

  lemma MaskedFieldBit(k: nat, j: nat, x: nat, t: nat, o: nat)
    requires j < k && t < Pow2(k - j - 1) && o < Pow2(j + 1)
    ensures Bit(Field(And(x, Mask(k, j)), Pos(Pow2(j + 1), t), Pow2(j + 1)), o)
       <==> Bit(Field(x, Pos(Pow2(j + 1), t), Pow2(j)), o)
  {
    hide Bit, And, Mask, Field, Pow2, Pos;
    var at := Pos(Pow2(j + 1), t);
    FieldBit(And(x, Mask(k, j)), at, Pow2(j + 1), o);
    FieldBit(x, at, Pow2(j), o);
    AndBit(x, Mask(k, j), at + o);
    MaskInside(k, j, t, o);
  }

  /** The mask cuts every field down to its lower half. */
  lemma MaskedField(k: nat, j: nat, x: nat, t: nat)
    requires j < k && t < Pow2(k - j - 1)
    ensures Field(And(x, Mask(k, j)), Pos(Pow2(j + 1), t), Pow2(j + 1)) == Field(x, Pos(Pow2(j + 1), t), Pow2(j))
  {
    assert Pow2(j + 1) == 2 * Pow2(j);
    Pow2Less(Pow2(j), Pow2(j + 1));
    hide Bit, And, Mask, Field, Pow2, Pos;
    var a := Field(And(x, Mask(k, j)), Pos(Pow2(j + 1), t), Pow2(j + 1));
    var b := Field(x, Pos(Pow2(j + 1), t), Pow2(j));
    forall o | 0 <= o < Pow2(j + 1)
      ensures Bit(a, o) == Bit(b, o)
    {
      MaskedFieldBit(k, j, x, t, o);
    }
    SameBits(Pow2(j + 1), a, b);
  }

  lemma FieldShift(n: nat, w: nat, t: nat)
    ensures Field(Shr(n, w), Pos(w, t), w) == Field(n, Pos(w, t + 1), w)
  {
    PosNext(w, t);
    hide Pos, Shr, Trunc;
    ShrShr(n, w, Pos(w, t));
  }

  lemma Recompose(w: nat, v: nat, q: nat, r: nat)
    requires Fits(v, q) && Fits(w, r)
    ensures Fits(w + v, Pow2(w) * q + r)
  {
    hide Pow2;
    Pow2Add(w, v);
    MulLess(Pow2(w), q, Pow2(v));
  }

  lemma LowField(n: nat, w: nat)
    ensures Field(n, 0, w) == Trunc(w, n)
  {
  }

  lemma SumParts(a: nat, c: nat, w: nat)
    requires Field(a, 0, w) + Field(c, 0, w) < Pow2(w)
    ensures Shr(a + c, w) == Shr(a, w) + Shr(c, w)
    ensures Field(a + c, 0, w) == Field(a, 0, w) + Field(c, 0, w)
    ensures a + c == Pow2(w) * (Shr(a, w) + Shr(c, w)) + (Field(a, 0, w) + Field(c, 0, w))
  {
    LowField(a, w);
    LowField(c, w);
    LowField(a + c, w);
    hide Trunc, Shr, Pow2, Field;
    TruncShr(a, w);
    TruncShr(c, w);
    assert Pow2(w) * (Shr(a, w) + Shr(c, w)) == Pow2(w) * Shr(a, w) + Pow2(w) * Shr(c, w);
    QuotientIs(a + c, w, Shr(a, w) + Shr(c, w), Trunc(w, a) + Trunc(w, c));
  }

  /** No field of a sum of two words overflows. */
  ghost predicate NoCarry(a: nat, c: nat, w: nat, m: nat) {
    forall t :: 0 <= t < m ==> Field(a, Pos(w, t), w) + Field(c, Pos(w, t), w) < Pow2(w)
  }

  ghost predicate AddedAt(a: nat, c: nat, w: nat, t: nat) {
    Field(a + c, Pos(w, t), w) == Field(a, Pos(w, t), w) + Field(c, Pos(w, t), w)
  }

  lemma NoCarryShift(a: nat, c: nat, w: nat, m: nat)
    requires m > 0 && NoCarry(a, c, w, m)
    ensures NoCarry(Shr(a, w), Shr(c, w), w, m - 1)
    ensures Field(a, 0, w) + Field(c, 0, w) < Pow2(w)
  {
    PosZero(w);
    hide Pos, Field, Pow2, Shr;
    assert Field(a, Pos(w, 0), w) + Field(c, Pos(w, 0), w) < Pow2(w);
    forall t | 0 <= t < m - 1
      ensures Field(Shr(a, w), Pos(w, t), w) + Field(Shr(c, w), Pos(w, t), w) < Pow2(w)
    {
      FieldShift(a, w, t);
      FieldShift(c, w, t);
    }
  }

  lemma AddedShift(a: nat, c: nat, w: nat, t: nat)
    requires Shr(a + c, w) == Shr(a, w) + Shr(c, w) && AddedAt(Shr(a, w), Shr(c, w), w, t)
    ensures AddedAt(a, c, w, t + 1)
  {
    hide Pos, Field, Shr;
    FieldShift(a, w, t);
    FieldShift(c, w, t);
    FieldShift(a + c, w, t);
  }

  /** If no field of a sum overflows, the fields are added one by one. */
  lemma {:induction false} FieldsAdd(a: nat, c: nat, w: nat, m: nat)
    requires Fits(Pos(w, m), a) && Fits(Pos(w, m), c)
    ensures NoCarry(a, c, w, m) ==> Fits(Pos(w, m), a + c) && forall t :: 0 <= t < m ==> AddedAt(a, c, w, t)
    decreases m
  {
    PosZero(w);
    if m == 0 {
      assert Pow2(0) == 1;
    } else if NoCarry(a, c, w, m) {
      PosNext(w, m - 1);
      NoCarryShift(a, c, w, m);
      SumParts(a, c, w);
      assert AddedAt(a, c, w, 0);
      hide Trunc, Shr, Pow2, Field, Pos, NoCarry, AddedAt;
      ShrRest(w, Pos(w, m), a);
      ShrRest(w, Pos(w, m), c);
      FieldsAdd(Shr(a, w), Shr(c, w), w, m - 1);
      Recompose(w, Pos(w, m - 1), Shr(a, w) + Shr(c, w), Field(a, 0, w) + Field(c, 0, w));
      forall t | 0 <= t < m
        ensures AddedAt(a, c, w, t)
      {
        if t > 0 {
          AddedShift(a, c, w, t - 1);
        }
      }
    }
  }

  /** The two masked words hold the counts of the upper and the lower halves. */
  lemma HalvesHold(k: nat, j: nat, x: nat, n: nat, t: nat)
    requires j < k && t < Pow2(k - j - 1) && HoldsCounts(x, n, Pow2(j), Pow2(k - j))
    ensures var w, B := Pow2(j + 1), Pow2(j);
            && Field(And(Shr(x, B), Mask(k, j)), Pos(w, t), w) == Pop(n, Pos(w, t) + B, B)
            && Field(And(x, Mask(k, j)), Pos(w, t), w) == Pop(n, Pos(w, t), B)
  {
    var w, B := Pow2(j + 1), Pow2(j);
    assert w == 2 * B && Pow2(k - j) == 2 * Pow2(k - j - 1);
    PosDouble(B, t);
    MaskedField(k, j, Shr(x, B), t);
    MaskedField(k, j, x, t);
    ShrShr(x, B, Pos(w, t));
    hide Pow2, And, Mask, Pop, Pos, Shr, Trunc;
    assert Field(x, Pos(B, 2 * t), B) == Pop(n, Pos(B, 2 * t), B);
    assert Field(x, Pos(B, 2 * t + 1), B) == Pop(n, Pos(B, 2 * t + 1), B);
  }

  /** One step: counts in fields of `B` bits become counts in fields of `2B` bits, and no field
      overflows. */
  lemma CountStepHolds(k: nat, j: nat, x: nat, n: nat)
    requires j < k && Fits(Pow2(k), x) && HoldsCounts(x, n, Pow2(j), Pow2(k - j))
    ensures Fits(Pow2(k), CountStep(k, j, x))
    ensures HoldsCounts(CountStep(k, j, x), n, Pow2(j + 1), Pow2(k - j - 1))
  {
    var w, B, m := Pow2(j + 1), Pow2(j), Pow2(k - j - 1);
    assert w == B + B;
    Pow2Add(j + 1, k - j - 1);
    assert Pow2(k) == Pos(w, m);
    Pow2Above(w);
    var a, c := And(Shr(x, B), Mask(k, j)), And(x, Mask(k, j));
    MaskFits(k, j);
    AndFits(Pow2(k), Shr(x, B), Mask(k, j));
    AndFits(Pow2(k), x, Mask(k, j));
    hide Pow2, And, Mask, Pop, Pos, Shr, Field;
    forall t | 0 <= t < m
      ensures Field(a, Pos(w, t), w) == Pop(n, Pos(w, t) + B, B) && Field(c, Pos(w, t), w) == Pop(n, Pos(w, t), B)
    {
      HalvesHold(k, j, x, n, t);
    }
    FieldsAdd(a, c, w, m);
    TruncSmall(Pow2(k), a + c);
    forall t | 0 <= t < m
      ensures Field(CountStep(k, j, x), Pos(w, t), w) == Pop(n, Pos(w, t), w)
    {
      assert AddedAt(a, c, w, t);
      PopAdd(n, Pos(w, t), B, B);
    }
  }

  lemma {:induction false} CountOpHolds(k: nat, j: nat, n: nat)
    requires j < k && Fits(Pow2(k), n)
    ensures Fits(Pow2(k), CountOp(k, j, n))
    ensures HoldsCounts(CountOp(k, j, n), n, Pow2(j + 1), Pow2(k - j - 1))
    decreases j
  {
    hide CountStep, Field, Pop;
    if j == 0 {
      forall t | 0 <= t < Pow2(k)
        ensures Field(n, Pos(1, t), 1) == Pop(n, Pos(1, t), 1)
      {
        BitField(n, Pos(1, t));
      }
      assert Pow2(0) == 1;
      CountStepHolds(k, 0, n, n);
    } else {
      CountOpHolds(k, j - 1, n);
      CountStepHolds(k, j, CountOp(k, j - 1, n), n);
    }
  }

  lemma BitField(n: nat, t: nat)
    ensures Field(n, t, 1) == Pop(n, t, 1)
  {
    ShrBit(n, t, 0);
    assert Trunc(1, Shr(n, t)) == Shr(n, t) % 2 + 2 * Trunc(0, Shr(n, t) / 2);
    assert Pop(n, t + 1, 0) == 0;
  }

  /** `count` is the number of set bits, for every word of every width. */
  lemma CountIsPop(k: nat, n: nat)
    requires k > 0 && Fits(Pow2(k), n)
    ensures Count(k, n) == Pop(n, 0, Pow2(k))
  {
    var w := Pow2(k);
    CountOpHolds(k, k - 1, n);
    PosZero(w);
    assert Pow2(0) == 1;
    LowField(Count(k, n), w);
    TruncSmall(w, Count(k, n));
    hide CountOp, Pos, Pop, Field;
    assert Field(Count(k, n), Pos(w, 0), w) == Pop(n, Pos(w, 0), w);
  }
}
