/** Bitwise operations on natural numbers, bit by bit. */
module Bits {
  import opened Powers

  predicate Bit(w: nat, i: nat) {
    if i == 0 then w % 2 == 1 else Bit(w / 2, i - 1)
  }

  function And(x: nat, y: nat): nat {
    if x == 0 then 0 else 2 * And(x / 2, y / 2) + (if x % 2 == 1 && y % 2 == 1 then 1 else 0)
  }

  function Or(x: nat, y: nat): nat
    decreases x + y
  {
    if x == 0 && y == 0 then 0
    else 2 * Or(x / 2, y / 2) + (if x % 2 == 1 || y % 2 == 1 then 1 else 0)
  }

  lemma {:induction false} BitZero(i: nat)
    ensures !Bit(0, i)
  {
    if i > 0 {
      BitZero(i - 1);
    }
  }

  lemma {:induction false} BitAnd(x: nat, y: nat, i: nat)
    ensures Bit(And(x, y), i) <==> Bit(x, i) && Bit(y, i)
    decreases i
  {
    if x == 0 {
      BitZero(i);
    } else if i > 0 {
      BitAnd(x / 2, y / 2, i - 1);
    }
  }

  lemma {:induction false} BitOr(x: nat, y: nat, i: nat)
    ensures Bit(Or(x, y), i) <==> Bit(x, i) || Bit(y, i)
    decreases i
  {
    if x == 0 && y == 0 {
      BitZero(i);
    } else if i > 0 {
      BitOr(x / 2, y / 2, i - 1);
    }
  }

  lemma {:induction false} BitPow2(k: nat, i: nat)
    ensures Bit(Pow2(k), i) <==> i == k
  {
    if k == 0 {
      if i > 0 {
        BitZero(i - 1);
      }
    } else if i > 0 {
      BitPow2(k - 1, i - 1);
    }
  }

  /** The bits of 2^n - 1 - w are those of w, complemented, below position n. */
  lemma {:induction false} BitComplement(n: nat, w: nat, i: nat)
    requires w < Pow2(n)
    ensures Bit(Pow2(n) - 1 - w, i) <==> i < n && !Bit(w, i)
  {
    if n == 0 {
      BitZero(i);
    } else {
      var h := Pow2(n - 1);
      assert w / 2 < h && (2 * h - 1 - w) / 2 == h - 1 - w / 2;
      assert (2 * h - 1 - w) % 2 == 1 - w % 2;
      if i > 0 {
        BitComplement(n - 1, w / 2, i - 1);
      }
    }
  }

  lemma {:induction false} OrBelow(n: nat, x: nat, y: nat)
    requires x < Pow2(n) && y < Pow2(n)
    ensures Or(x, y) < Pow2(n)
  {
    if n > 0 {
      OrBelow(n - 1, x / 2, y / 2);
    }
  }

  lemma {:induction false} AndAtMost(x: nat, y: nat)
    ensures And(x, y) <= x
  {
    if x > 0 {
      AndAtMost(x / 2, y / 2);
    }
  }

  /** A word is zero exactly when it has no bit. */
  lemma {:induction false} HasBit(w: nat) returns (i: nat)
    requires w != 0
    ensures Bit(w, i)
  {
    if w % 2 == 1 {
      i := 0;
    } else {
      i := HasBit(w / 2);
      i := i + 1;
    }
  }

  /** Testing against a one-bit mask tests that bit. */
  lemma AndPow2(w: nat, k: nat)
    ensures And(w, Pow2(k)) != 0 <==> Bit(w, k)
  {
    BitAnd(w, Pow2(k), k);
    BitPow2(k, k);
    if And(w, Pow2(k)) != 0 {
      var i := HasBit(And(w, Pow2(k)));
      BitAnd(w, Pow2(k), i);
      BitPow2(k, i);
    } else {
      BitZero(k);
    }
  }

  /** Masking with 2^k - 1 is reduction modulo 2^k. */
  lemma {:induction false} AndLowMask(x: nat, k: nat)
    ensures And(x, Pow2(k) - 1) == x % Pow2(k)
    decreases k
  {
    if k == 0 {
      AndZero(x);
    } else {
      var h := Pow2(k - 1);
      assert (2 * h - 1) / 2 == h - 1 && (2 * h - 1) % 2 == 1;
      AndLowMask(x / 2, k - 1);
      ModDouble(x, h);
      if x == 0 {
        assert x % Pow2(k) == 0;
      }
    }
  }

  lemma {:induction false} AndZero(x: nat)
    ensures And(x, 0) == 0
  {
    if x > 0 {
      AndZero(x / 2);
    }
  }

  lemma ModDouble(x: nat, h: nat)
    requires h > 0
    ensures x % (2 * h) == 2 * (x / 2 % h) + x % 2
  {
    var q, r := x / 2 / h, 2 * (x / 2 % h) + x % 2;
    assert x / 2 == h * q + x / 2 % h;
    assert x == 2 * (h * q) + r;
    assert 2 * h * q == 2 * (h * q) && 2 * h * (q + 1) == 2 * h * q + 2 * h;
    DivUnique(x, 2 * h, q);
  }
}
