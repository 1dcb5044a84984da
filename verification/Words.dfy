/** Unsigned words of any width as natural numbers: their bits, and the C++ operators on them. */
module Words {

  function Pow2(k: nat): (p: nat)
    ensures p >= 1
  {
    if k == 0 then 1 else 2 * Pow2(k - 1)
  }

  predicate Bit(n: nat, i: nat) {
    if i == 0 then n % 2 == 1 else Bit(n / 2, i - 1)
  }

  predicate Fits(W: nat, n: nat) {
    n < Pow2(W)
  }

  // ----- the operators -----------------------------------------------------------------------------

  function And(a: nat, b: nat): nat {
    if a == 0 || b == 0 then 0 else (a % 2) * (b % 2) + 2 * And(a / 2, b / 2)
  }

  function Or(a: nat, b: nat): nat {
    if a == 0 then b else if b == 0 then a
    else (if a % 2 == 1 || b % 2 == 1 then 1 else 0) + 2 * Or(a / 2, b / 2)
  }

  function Xor(a: nat, b: nat): nat {
    if a == 0 then b else if b == 0 then a
    else (if a % 2 != b % 2 then 1 else 0) + 2 * Xor(a / 2, b / 2)
  }

  /** Reduction to `W` bits, as every assignment to a word does. */
  function Trunc(W: nat, n: nat): (r: nat)
    ensures r < Pow2(W)
  {
    if W == 0 then 0 else n % 2 + 2 * Trunc(W - 1, n / 2)
  }

  function Not(W: nat, n: nat): nat
    requires Fits(W, n)
  {
    Pow2(W) - 1 - n
  }

  function Shr(n: nat, s: nat): nat {
    if s == 0 then n else Shr(n / 2, s - 1)
  }

  function Shl(W: nat, n: nat, s: nat): nat {
    Trunc(W, n * Pow2(s))
  }

  // ----- arithmetic of the operators ---------------------------------------------------------------

  lemma {:induction false} Pow2Add(a: nat, b: nat)
    ensures Pow2(a + b) == Pow2(a) * Pow2(b)
    decreases a
  {
    if a > 0 {
      assert Pow2(a + b) == 2 * Pow2(a - 1 + b) && Pow2(a) == 2 * Pow2(a - 1);
      hide Pow2;
      Pow2Add(a - 1, b);
      TwiceProduct(Pow2(a - 1), Pow2(b));
    }
  }

  lemma {:induction false} Pow2Less(a: nat, b: nat)
    requires a < b
    ensures 2 * Pow2(a) <= Pow2(b)
    decreases b
  {
    if a < b - 1 {
      Pow2Less(a, b - 1);
    }
  }

  lemma {:induction false} Pow2Above(n: nat)
    ensures n < Pow2(n)
  {
    if n > 0 {
      Pow2Above(n - 1);
    }
  }

  /** Truncation is the remainder and the right shift is the quotient by a power of two. */
  lemma {:induction false} TruncShr(n: nat, s: nat)
    ensures n == Pow2(s) * Shr(n, s) + Trunc(s, n)
    decreases s
  {
    if s > 0 {
      var p, q, r := Pow2(s - 1), Shr(n / 2, s - 1), Trunc(s - 1, n / 2);
      assert Pow2(s) == 2 * p && Shr(n, s) == q && Trunc(s, n) == n % 2 + 2 * r;
      hide Pow2, Shr, Trunc;
      TruncShr(n / 2, s - 1);
      TwiceProduct(p, q);
    }
  }

  lemma TwiceProduct(a: nat, b: nat)
    ensures (2 * a) * b == 2 * (a * b)
  {
  }

  lemma MulLess(d: nat, a: nat, b: nat)
    requires a < b
    ensures d * a + d <= d * b
  {
    assert d * b == d * a + d * (b - a);
    assert d * (b - a) == d + d * (b - a - 1);
  }

  lemma QuotientIsUnique(d: nat, q: nat, r: nat, q': nat, r': nat)
    requires d * q + r == d * q' + r' && r < d && r' < d
    ensures q == q' && r == r'
  {
    if q < q' {
      MulLess(d, q, q');
    } else if q' < q {
      MulLess(d, q', q);
    }
  }

  lemma QuotientIs(n: nat, s: nat, q: nat, r: nat)
    requires n == Pow2(s) * q + r && r < Pow2(s)
    ensures Shr(n, s) == q && Trunc(s, n) == r
  {
    hide Shr, Trunc, Pow2;
    TruncShr(n, s);
    QuotientIsUnique(Pow2(s), q, r, Shr(n, s), Trunc(s, n));
  }

  lemma TruncSmall(W: nat, n: nat)
    requires Fits(W, n)
    ensures Trunc(W, n) == n && Shr(n, W) == 0
  {
    QuotientIs(n, W, 0, n);
  }

  lemma {:induction false} ShrShr(n: nat, a: nat, b: nat)
    ensures Shr(Shr(n, a), b) == Shr(n, a + b)
    decreases a
  {
    if a > 0 {
      ShrShr(n / 2, a - 1, b);
    }
  }

  // ----- the bits of the operators -----------------------------------------------------------------

  lemma {:induction false} AndBit(a: nat, b: nat, i: nat)
    ensures Bit(And(a, b), i) <==> Bit(a, i) && Bit(b, i)
    decreases i
  {
    if a == 0 || b == 0 {
      ZeroBit(i);
    } else if i > 0 {
      AndBit(a / 2, b / 2, i - 1);
    }
  }

  lemma {:induction false} ZeroBit(i: nat)
    ensures !Bit(0, i)
  {
    if i > 0 {
      ZeroBit(i - 1);
    }
  }

  lemma {:induction false} OrBit(a: nat, b: nat, i: nat)
    ensures Bit(Or(a, b), i) <==> Bit(a, i) || Bit(b, i)
    decreases i
  {
    if a == 0 || b == 0 {
      ZeroBit(i);
    } else if i > 0 {
      OrBit(a / 2, b / 2, i - 1);
    }
  }

  lemma {:induction false} XorBit(a: nat, b: nat, i: nat)
    ensures Bit(Xor(a, b), i) <==> Bit(a, i) != Bit(b, i)
    decreases i
  {
    if a == 0 || b == 0 {
      ZeroBit(i);
    } else if i > 0 {
      XorBit(a / 2, b / 2, i - 1);
    }
  }

  lemma {:induction false} TruncBit(W: nat, n: nat, i: nat)
    ensures Bit(Trunc(W, n), i) <==> i < W && Bit(n, i)
    decreases W
  {
    if W == 0 {
      ZeroBit(i);
    } else if i > 0 {
      TruncBit(W - 1, n / 2, i - 1);
    }
  }

  lemma {:induction false} NotBit(W: nat, n: nat, i: nat)
    requires Fits(W, n)
    ensures Fits(W, Not(W, n))
    ensures Bit(Not(W, n), i) <==> i < W && !Bit(n, i)
    decreases W
  {
    if W == 0 {
      ZeroBit(i);
    } else {
      NotBit(W - 1, n / 2, if i > 0 then i - 1 else 0);
      assert Not(W, n) / 2 == Not(W - 1, n / 2) && Not(W, n) % 2 == 1 - n % 2;
    }
  }

  lemma {:induction false} ShrBit(n: nat, s: nat, i: nat)
    ensures Bit(Shr(n, s), i) <==> Bit(n, s + i)
    decreases s
  {
    if s > 0 {
      ShrBit(n / 2, s - 1, i);
    }
  }

  lemma {:induction false} ScaleBit(n: nat, s: nat, i: nat)
    ensures Bit(n * Pow2(s), i) <==> i >= s && Bit(n, i - s)
    decreases s
  {
    if s == 0 {
      assert n * Pow2(0) == n;
    } else {
      var m := n * Pow2(s - 1);
      assert n * Pow2(s) == 2 * m by {
        assert n * (2 * Pow2(s - 1)) == 2 * (n * Pow2(s - 1));
      }
      if i > 0 {
        ScaleBit(n, s - 1, i - 1);
        assert (2 * m) / 2 == m;
      }
    }
  }

  lemma ShlBit(W: nat, n: nat, s: nat, i: nat)
    ensures Bit(Shl(W, n, s), i) <==> i < W && i >= s && Bit(n, i - s)
  {
    TruncBit(W, n * Pow2(s), i);
    ScaleBit(n, s, i);
  }

  lemma HighBitsZero(W: nat, n: nat, i: nat)
    requires Fits(W, n) && i >= W
    ensures !Bit(n, i)
  {
    TruncSmall(W, n);
    TruncBit(W, n, i);
  }

  /** Words with the same bits are the same. */
  lemma {:induction false} SameBits(W: nat, a: nat, b: nat)
    requires Fits(W, a) && Fits(W, b)
    requires forall i :: 0 <= i < W ==> Bit(a, i) == Bit(b, i)
    ensures a == b
    decreases W
  {
    if W > 0 {
      assert Bit(a, 0) == Bit(b, 0);
      forall i | 0 <= i < W - 1
        ensures Bit(a / 2, i) == Bit(b / 2, i)
      {
        assert Bit(a, i + 1) == Bit(b, i + 1);
      }
      SameBits(W - 1, a / 2, b / 2);
    }
  }

  /** A number with a set bit is not zero, and the other way round. */
  lemma {:induction false} SomeBit(W: nat, n: nat) returns (i: nat)
    requires Fits(W, n) && n != 0
    ensures i < W && Bit(n, i)
    decreases W
  {
    if n % 2 == 1 {
      i := 0;
    } else {
      i := SomeBit(W - 1, n / 2);
      i := i + 1;
    }
  }

  lemma {:induction false} BitNotZero(n: nat, i: nat)
    requires Bit(n, i)
    ensures n != 0
    decreases i
  {
    if i > 0 {
      BitNotZero(n / 2, i - 1);
    }
  }

  lemma {:induction false} ShrRest(W: nat, V: nat, n: nat)
    requires W <= V && Fits(V, n)
    ensures Fits(V - W, Shr(n, W))
    decreases W
  {
    if W > 0 {
      ShrRest(W - 1, V - 1, n / 2);
    }
  }

  /** If all bits from `W` on are zero the number fits. */
  lemma FitsIfZero(W: nat, V: nat, n: nat)
    requires W <= V && Fits(V, n) && forall i :: W <= i < V ==> !Bit(n, i)
    ensures Fits(W, n)
  {
    hide Bit, Shr, Trunc, Pow2;
    ShrRest(W, V, n);
    if Shr(n, W) != 0 {
      var i := SomeBit(V - W, Shr(n, W));
      ShrBit(n, W, i);
    }
    TruncShr(n, W);
    assert Pow2(W) * 0 == 0;
  }

  lemma AndFits(W: nat, a: nat, b: nat)
    requires Fits(W, a) || Fits(W, b)
    ensures Fits(W, And(a, b))
    decreases a
  {
    if a != 0 && b != 0 && W > 0 {
      AndFits(W - 1, a / 2, b / 2);
    }
  }

  lemma {:induction false} OrFits(W: nat, a: nat, b: nat)
    requires Fits(W, a) && Fits(W, b)
    ensures Fits(W, Or(a, b))
    decreases W
  {
    if a != 0 && b != 0 {
      OrFits(W - 1, a / 2, b / 2);
    }
  }

  lemma {:induction false} ShrFits(W: nat, n: nat, s: nat)
    requires Fits(W, n)
    ensures Fits(W, Shr(n, s))
    decreases s
  {
    if s > 0 {
      ShrFits(W, n / 2, s - 1);
    }
  }

  /** Without common bits the union is the sum. */
  lemma {:induction false} OrIsSum(a: nat, b: nat)
    requires And(a, b) == 0
    ensures Or(a, b) == a + b
    decreases a
  {
    if a != 0 && b != 0 {
      OrIsSum(a / 2, b / 2);
    }
  }

  // ----- quotient and remainder of positions ---------------------------------------------------------

  lemma DivModIs(i: nat, d: nat, q: nat, r: nat)
    requires i == d * q + r && r < d
    ensures i / d == q && i % d == r
  {
    QuotientIsUnique(d, q, r, i / d, i % d);
  }
}
