/** The bitwise operators of C++ on unsigned words, bit by bit, and what masks, shifts and
    complements come to as arithmetic. */
module BitOperations {
  import opened Arithmetic

  /** a & b */
  function And(a: nat, b: nat): (r: nat)
    ensures r <= a && r <= b
  {
    if a == 0 then 0 else 2 * And(a / 2, b / 2) + if a % 2 == 1 && b % 2 == 1 then 1 else 0
  }

  /** a | b */
  function Or(a: nat, b: nat): nat
    decreases a + b
  {
    if a == 0 && b == 0 then 0 else 2 * Or(a / 2, b / 2) + if a % 2 == 1 || b % 2 == 1 then 1 else 0
  }

  /** a ^ b */
  function Xor(a: nat, b: nat): nat
    decreases a + b
  {
    if a == 0 && b == 0 then 0 else 2 * Xor(a / 2, b / 2) + if a % 2 != b % 2 then 1 else 0
  }

  /** ~a of a word of w bits. */
  function Not(a: nat, w: nat): nat {
    if w == 0 then 0 else 2 * Not(a / 2, w - 1) + if a % 2 == 1 then 0 else 1
  }

  /** a << n, before the result is cut to the width of a word. */
  function ShiftLeft(a: nat, n: nat): nat { a * Pow2(n) }

  /** a >> n */
  function ShiftRight(a: nat, n: nat): nat { if n == 0 then a else ShiftRight(a / 2, n - 1) }

  // ----- Bit by bit

  /** Bit i of a word. */
  predicate Bit(a: nat, i: nat) {
    if i == 0 then a % 2 == 1 else Bit(a / 2, i - 1)
  }

  lemma {:induction false} NoBits(i: nat)
    ensures !Bit(0, i)
  {
    if i > 0 { NoBits(i - 1); }
  }

  lemma {:induction false} AndBit(a: nat, b: nat, i: nat)
    ensures Bit(And(a, b), i) <==> Bit(a, i) && Bit(b, i)
  {
    NoBits(i);
    if i > 0 && a != 0 { AndBit(a / 2, b / 2, i - 1); }
  }

  lemma {:induction false} OrBit(a: nat, b: nat, i: nat)
    ensures Bit(Or(a, b), i) <==> Bit(a, i) || Bit(b, i)
  {
    NoBits(i);
    if i > 0 && (a != 0 || b != 0) { OrBit(a / 2, b / 2, i - 1); }
  }

  lemma {:induction false} XorBit(a: nat, b: nat, i: nat)
    ensures Bit(Xor(a, b), i) <==> Bit(a, i) != Bit(b, i)
  {
    NoBits(i);
    if i > 0 && (a != 0 || b != 0) { XorBit(a / 2, b / 2, i - 1); }
  }

  lemma {:induction false} NotBit(a: nat, w: nat, i: nat)
    ensures Bit(Not(a, w), i) <==> i < w && !Bit(a, i)
  {
    if w == 0 {
      NoBits(i);
    } else if i > 0 {
      NotBit(a / 2, w - 1, i - 1);
    }
  }

  lemma {:induction false} ShiftRightBit(a: nat, n: nat, i: nat)
    ensures Bit(ShiftRight(a, n), i) <==> Bit(a, i + n)
  {
    if n > 0 { ShiftRightBit(a / 2, n - 1, i); }
  }

  lemma {:induction false} ShiftLeftBit(a: nat, n: nat, i: nat)
    ensures Bit(ShiftLeft(a, n), i) <==> i >= n && Bit(a, i - n)
  {
    if n > 0 {
      assert a * Pow2(n) == 2 * (a * Pow2(n - 1));
      if i > 0 { ShiftLeftBit(a, n - 1, i - 1); }
    }
  }

  /** The bits of a word that is cut to w bits: h counts what is cut off. */
  lemma {:induction false} CutBit(h: nat, l: nat, w: nat, i: nat)
    requires l < Pow2(w)
    ensures Bit(l, i) <==> i < w && Bit(h * Pow2(w) + l, i)
  {
    if w == 0 {
      NoBits(i);
    } else {
      Halve(h, w, l);
      if i > 0 { CutBit(h, l / 2, w - 1, i - 1); }
    }
  }

  // ----- Powers of two

  lemma Pow2Adds8(n: nat)
    ensures Pow2(n + 8) == 256 * Pow2(n)
  {
    assert Pow2(n + 2) == 4 * Pow2(n);
    assert Pow2(n + 4) == 4 * Pow2(n + 2);
    assert Pow2(n + 6) == 4 * Pow2(n + 4);
  }

  lemma BytePowers()
    ensures Pow2(0) == 1 && Pow2(8) == 0x100 && Pow2(16) == 0x1_0000 && Pow2(24) == 0x100_0000
    ensures Pow2(32) == 0x1_0000_0000 && Pow2(40) == 0x100_0000_0000
    ensures Pow2(48) == 0x1_0000_0000_0000 && Pow2(56) == 0x100_0000_0000_0000
  {
  }

  // ----- Zero

  lemma {:induction false} OrZero(a: nat)
    ensures Or(a, 0) == a && Or(0, a) == a
  {
    if a != 0 { OrZero(a / 2); }
  }

  lemma {:induction false} XorZero(a: nat)
    ensures Xor(a, 0) == a && Xor(0, a) == a
  {
    if a != 0 { XorZero(a / 2); }
  }

  /** Or stays within the width of its operands. */
  lemma {:induction false} OrFits(a: nat, b: nat, n: nat)
    requires a < Pow2(n) && b < Pow2(n)
    ensures Or(a, b) < Pow2(n)
  {
    if n > 0 { OrFits(a / 2, b / 2, n - 1); }
  }

  // ----- A word as its high part over n low bits

  lemma Halve(h: nat, n: nat, l: nat)
    requires n > 0
    ensures (h * Pow2(n) + l) / 2 == h * Pow2(n - 1) + l / 2 && (h * Pow2(n) + l) % 2 == l % 2
  {
    assert h * Pow2(n) == 2 * (h * Pow2(n - 1));
  }

  lemma {:induction false} AndSplits(h: nat, l: nat, i: nat, j: nat, n: nat)
    requires l < Pow2(n) && j < Pow2(n)
    ensures And(h * Pow2(n) + l, i * Pow2(n) + j) == And(h, i) * Pow2(n) + And(l, j)
  {
    if n > 0 {
      Halve(h, n, l);
      Halve(i, n, j);
      AndSplits(h, l / 2, i, j / 2, n - 1);
      Halve(And(h, i), n, 0);
    }
  }

  lemma {:induction false} OrSplits(h: nat, l: nat, i: nat, j: nat, n: nat)
    requires l < Pow2(n) && j < Pow2(n)
    ensures Or(h * Pow2(n) + l, i * Pow2(n) + j) == Or(h, i) * Pow2(n) + Or(l, j)
  {
    if n > 0 {
      Halve(h, n, l);
      Halve(i, n, j);
      OrSplits(h, l / 2, i, j / 2, n - 1);
      Halve(Or(h, i), n, 0);
    }
  }

  lemma {:induction false} XorSplits(h: nat, l: nat, i: nat, j: nat, n: nat)
    requires l < Pow2(n) && j < Pow2(n)
    ensures Xor(h * Pow2(n) + l, i * Pow2(n) + j) == Xor(h, i) * Pow2(n) + Xor(l, j)
  {
    if n > 0 {
      Halve(h, n, l);
      Halve(i, n, j);
      XorSplits(h, l / 2, i, j / 2, n - 1);
      Halve(Xor(h, i), n, 0);
    }
  }

  /** A shift to the right leaves the high part. */
  lemma {:induction false} ShiftDrops(h: nat, l: nat, n: nat)
    requires l < Pow2(n)
    ensures ShiftRight(h * Pow2(n) + l, n) == h
  {
    if n > 0 {
      Halve(h, n, l);
      ShiftDrops(h, l / 2, n - 1);
    }
  }

  // ----- Masks

  lemma {:induction false} OnesKeep(l: nat, k: nat)
    requires l < Pow2(k)
    ensures And(l, Pow2(k) - 1) == l
  {
    if k > 0 {
      var p := Pow2(k - 1);
      assert (2 * p - 1) / 2 == p - 1 && (2 * p - 1) % 2 == 1;
      OnesKeep(l / 2, k - 1);
    }
  }

  /** A mask of k ones keeps the k low bits. */
  lemma MaskKeepsLow(x: nat, h: nat, l: nat, k: nat)
    requires l < Pow2(k) && x == h * Pow2(k) + l
    ensures And(x, Pow2(k) - 1) == l
  {
    hide And, Pow2;
    AndSplits(h, l, 0, Pow2(k) - 1, k);
    OnesKeep(l, k);
  }

  /** Shifted left by n, it keeps the k bits d in the middle of x. */
  lemma MaskKeepsField(x: nat, q: nat, h: nat, d: nat, k: nat, l: nat, n: nat, m: nat)
    requires x == q * Pow2(n) + l && l < Pow2(n)
    requires q == h * Pow2(k) + d && d < Pow2(k)
    requires m == (Pow2(k) - 1) * Pow2(n)
    ensures And(x, m) == d * Pow2(n)
  {
    hide And, Pow2;
    AndSplits(q, l, Pow2(k) - 1, 0, n);
    MaskKeepsLow(q, h, d, k);
  }

  /** And with its complement a mask takes those bits away. */
  lemma {:induction false} ComplementSubtracts(x: nat, m: nat, w: nat)
    requires x < Pow2(w)
    ensures And(x, Not(m, w)) == x - And(x, m)
  {
    if w > 0 {
      ComplementSubtracts(x / 2, m / 2, w - 1);
    }
  }

  lemma {:induction false} NotIsDifference(x: nat, w: nat)
    requires x < Pow2(w)
    ensures Not(x, w) == Pow2(w) - 1 - x
  {
    if w > 0 { NotIsDifference(x / 2, w - 1); }
  }

  /** Or of parts without a common bit adds. */
  lemma OrAdds(h: nat, n: nat, l: nat)
    requires l < Pow2(n)
    ensures Or(h * Pow2(n), l) == h * Pow2(n) + l && Or(l, h * Pow2(n)) == h * Pow2(n) + l
  {
    hide Or, Pow2;
    OrSplits(h, 0, 0, l, n);
    OrSplits(0, l, h, 0, n);
    OrZero(h);
    OrZero(l);
  }
}
