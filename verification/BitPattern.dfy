/** `BitPattern` and `BitOpsMagic`: masks built by repeating a pattern, halving the number of
    copies at every step, and the "binary magic numbers" made with them. */
module BitPattern {
  import opened Words

  /** `n` copies of the `width` bits of `pat`, in a word of `W` bits. */
  function Repeat(W: nat, pat: nat, width: nat, n: nat): nat
    decreases n
  {
    if n == 0 then 0
    else if n == 1 then Trunc(W, pat)
    else Or(Shl(W, Repeat(W, pat, width, n / 2 + n % 2), width * (n / 2)), Repeat(W, pat, width, n / 2))
  }

  function Copies(W: nat, width: nat): nat
    requires width > 0
  {
    W / width
  }

  /** `B` ones, `B` zeroes, and so on from the right. */
  function Magic(W: nat, B: nat): nat
    requires B > 0
  {
    if B == 1 then Repeat(W, 1, 2, Copies(W, 2))
    else Repeat(W, Repeat(W, 1, 1, B), 2 * B, Copies(W, 2 * B))
  }

  lemma ModShift(i: nat, width: nat, h: nat)
    requires width > 0 && i >= width * h
    ensures (i - width * h) % width == i % width
  {
    var j := i - width * h;
    var q, r := j / width, j % width;
    assert i == width * (q + h) + r by {
      assert width * (q + h) == width * q + width * h;
    }
    DivModIs(i, width, q + h, r);
  }

  lemma HalfCopies(width: nat, n: nat)
    ensures width * (n / 2) + width * (n / 2 + n % 2) == width * n
    ensures n > 0 ==> width <= width * n
  {
    assert n == n / 2 + (n / 2 + n % 2);
    assert width * (n / 2 + (n / 2 + n % 2)) == width * (n / 2) + width * (n / 2 + n % 2);
    if n > 0 {
      assert width * n == width + width * (n - 1);
    }
  }

  /** Closed form of the mask builder: bit `i` of the mask is bit `i % width` of the pattern. */
  lemma {:induction false} RepeatBit(W: nat, pat: nat, width: nat, n: nat, i: nat)
    requires width > 0 && Fits(width, pat) && width * n <= W
    ensures Bit(Repeat(W, pat, width, n), i) <==> i < width * n && Bit(pat, i % width)
    decreases n
  {
    hide Bit, Trunc, Or, Shl;
    if n == 0 {
      ZeroBit(i);
    } else if n == 1 {
      TruncBit(W, pat, i);
      if i < width {
        DivModIs(i, width, 0, i);
      } else {
        HighBitsZero(width, pat, i);
      }
    } else {
      var h, r := n / 2, n / 2 + n % 2;
      var low, high := Repeat(W, pat, width, h), Repeat(W, pat, width, r);
      HalfCopies(width, n);
      OrBit(Shl(W, high, width * h), low, i);
      ShlBit(W, high, width * h, i);
      RepeatBit(W, pat, width, h, i);
      if i >= width * h {
        RepeatBit(W, pat, width, r, i - width * h);
        ModShift(i, width, h);
      }
    }
  }

  lemma {:induction false} RepeatFits(W: nat, pat: nat, width: nat, n: nat)
    ensures Fits(W, Repeat(W, pat, width, n))
    decreases n
  {
    if n > 1 {
      RepeatFits(W, pat, width, n / 2);
      OrFits(W, Shl(W, Repeat(W, pat, width, n / 2 + n % 2), width * (n / 2)), Repeat(W, pat, width, n / 2));
    }
  }

  lemma MagicFits(W: nat, B: nat)
    requires B > 0
    ensures Fits(W, Magic(W, B))
  {
    if B == 1 {
      RepeatFits(W, 1, 2, Copies(W, 2));
    } else {
      RepeatFits(W, Repeat(W, 1, 1, B), 2 * B, Copies(W, 2 * B));
    }
  }

  /** The inner pattern: `B` ones. */
  lemma OnesBit(W: nat, B: nat, i: nat)
    requires 0 < B <= W
    ensures Bit(Repeat(W, 1, 1, B), i) <==> i < B
  {
    RepeatBit(W, 1, 1, B, i);
    DivModIs(i, 1, i, 0);
  }

  lemma OnesFit(W: nat, B: nat)
    requires 0 < B <= W
    ensures Fits(B, Repeat(W, 1, 1, B))
  {
    RepeatFits(W, 1, 1, B);
    forall i | B <= i < W
      ensures !Bit(Repeat(W, 1, 1, B), i)
    {
      OnesBit(W, B, i);
    }
    FitsIfZero(B, W, Repeat(W, 1, 1, B));
  }

  /** A binary magic number has its ones in the lower half of every `2 * B` bits. */
  lemma MagicBit(W: nat, B: nat, m: nat, i: nat)
    requires B > 0 && m > 0 && W == 2 * B * m
    ensures Bit(Magic(W, B), i) <==> i < W && i % (2 * B) < B
  {
    hide Bit, Repeat;
    DivModIs(W, 2 * B, m, 0);
    HalfCopies(2 * B, m);
    if B == 1 {
      RepeatBit(W, 1, 2, m, i);
      OneBit(i % 2);
    } else {
      OnesFit(W, B);
      Pow2Less(B, 2 * B);
      RepeatBit(W, Repeat(W, 1, 1, B), 2 * B, m, i);
      OnesBit(W, B, i % (2 * B));
    }
  }

  lemma OneBit(i: nat)
    ensures Bit(1, i) <==> i == 0
  {
    if i > 0 {
      ZeroBit(i - 1);
    }
  }
}
