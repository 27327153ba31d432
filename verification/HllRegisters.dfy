/** The dense registers of a HyperLogLog: 16384 six-bit counters packed into bytes from the least
    significant bit on, so that some straddle two bytes. */
module HllRegisters {
  import opened Arithmetic
  import opened BitOperations

  const REGISTERS: int := 16384
  const REGISTER_BITS: nat := 6
  const REGISTER_MAX: nat := 63
  /** The bytes of the registers, and the one behind them that the last register's access touches. */
  const BYTES: int := 12289

  type Byte = x: int | 0 <= x < 256
  type Register = x: int | 0 <= x < 64

  /** The byte register r starts in, and the bit of it: r * 6 / 8 and r * 6 & 7. */
  function ByteOf(r: nat): nat { r * REGISTER_BITS / 8 }
  function BitOf(r: nat): nat { And(r * REGISTER_BITS, 7) }

  lemma BitIsRemainder(r: nat)
    ensures BitOf(r) == r * 6 % 8
  {
    var x := r * 6;
    MaskKeepsLow(x, x / 8, x % 8, 3);
  }

  /** HLL_DENSE_GET_REGISTER */
  function Get(p: seq<Byte>, r: nat): Register
    requires |p| == BYTES && r < REGISTERS
  {
    BitIsRemainder(r);
    Bits(p[ByteOf(r)], p[ByteOf(r) + 1], BitOf(r))
  }

  function Bits(b0: Byte, b1: Byte, fb: nat): Register
    requires fb < 8
  {
    And(Or(ShiftRight(b0, fb), ShiftLeft(b1, 8 - fb)), REGISTER_MAX)
  }

  /** The two assignments of HLL_DENSE_SET_REGISTER to the first byte.  The mask is an int, and what is
      stored back is cut to a byte. */
  function ClearLow(b: Byte, fb: nat): Byte { And(b, Not(ShiftLeft(REGISTER_MAX, fb), 32)) }
  function Low(b: Byte, fb: nat, v: Register): Byte { Or(ClearLow(b, fb), ShiftLeft(v, fb)) % 256 }

  /** Those to the second one. */
  function ClearHigh(b: Byte, fb8: nat): Byte { And(b, Not(ShiftRight(REGISTER_MAX, fb8), 32)) }
  function High(b: Byte, fb8: nat, v: Register): Byte { Or(ClearHigh(b, fb8), ShiftRight(v, fb8)) % 256 }

  /** HLL_DENSE_SET_REGISTER */
  method Set(p: array<Byte>, r: nat, v: Register)
    requires p.Length == BYTES && r < REGISTERS
    modifies p
    ensures p[..] == Written(old(p[..]), r, v)
  {
    hide And, Or, Not, ShiftLeft, ShiftRight;
    BitIsRemainder(r);
    var at := ByteOf(r);
    var fb := BitOf(r);
    var fb8 := 8 - fb;
    p[at] := And(p[at], Not(ShiftLeft(REGISTER_MAX, fb), 32));
    p[at] := Or(p[at], ShiftLeft(v, fb)) % 256;
    p[at + 1] := And(p[at + 1], Not(ShiftRight(REGISTER_MAX, fb8), 32));
    p[at + 1] := Or(p[at + 1], ShiftRight(v, fb8)) % 256;
  }

  function Written(p: seq<Byte>, r: nat, v: Register): (q: seq<Byte>)
    requires |p| == BYTES && r < REGISTERS
    ensures |q| == |p|
  {
    BitIsRemainder(r);
    var at, fb := ByteOf(r), BitOf(r);
    p[at := Low(p[at], fb, v)][at + 1 := High(p[at + 1], 8 - fb, v)]
  }

  // ----- The bit operations as arithmetic

  lemma Powers()
    ensures Pow2(0) == 1 && Pow2(2) == 4 && Pow2(4) == 16 && Pow2(6) == 64 && Pow2(8) == 256
    ensures Pow2(32) == 0x1_0000_0000
  {
    assert Pow2(16) == 0x1_0000;
    assert Pow2(24) == 0x100_0000;
  }

  /** The two parts of a register have no bit in common. */
  lemma BitsAreSum(b0: Byte, b1: Byte, fb: nat, h: nat, l: nat)
    requires fb < 8 && l < Pow2(fb) && h < Pow2(8 - fb) && b0 == h * Pow2(fb) + l
    ensures 0 <= h + b1 * Pow2(8 - fb)
    ensures Bits(b0, b1, fb) == (h + b1 * Pow2(8 - fb)) % 64
  {
    hide And, Or, ShiftRight, Pow2;
    Powers();
    ShiftDrops(h, l, fb);
    OrAdds(b1, 8 - fb, h);
    var s := h + b1 * Pow2(8 - fb);
    MaskKeepsLow(s, s / 64, s % 64, 6);
  }

  /** Where the field reaches the end of the first byte, clearing leaves the bits l below it. */
  lemma LowIsSum(b: Byte, fb: nat, v: Register, h: nat, l: nat)
    requires l < Pow2(fb) && h < 64 && b == h * Pow2(fb) + l
    ensures 0 <= v * Pow2(fb) && Low(b, fb, v) == (v * Pow2(fb) + l) % 256
  {
    hide And, Or, Not, Pow2;
    Powers();
    var m := ShiftLeft(REGISTER_MAX, fb);
    MaskKeepsField(b, h, 0, h, 6, l, fb, m);
    ComplementSubtracts(b, m, 32);
    OrAdds(v, fb, l);
  }

  /** In the second byte it has its k lowest bits, which take the high bits w of the value. */
  lemma HighIsSum(b: Byte, fb8: nat, v: Register, h: nat, l: nat, k: nat, w: nat)
    requires ShiftRight(REGISTER_MAX, fb8) == Pow2(k) - 1 && ShiftRight(v, fb8) == w < Pow2(k)
    requires b == h * Pow2(k) + l && l < Pow2(k)
    ensures High(b, fb8, v) == (h * Pow2(k) + w) % 256
  {
    hide And, Or, Not, ShiftRight, Pow2;
    Powers();
    var m: nat, c: nat := Pow2(k) - 1, b - l;
    MaskKeepsLow(b, h, l, k);
    ComplementSubtracts(b, m, 32);
    assert ClearHigh(b, fb8) == c == h * Pow2(k);
    OrAdds(h, k, w);
  }

  // ----- Four registers in three bytes

  const GROUPS: int := 4096

  /** The registers of three bytes are the digits, in base 64, of the number the bytes make up. */
  function Digit(b0: Byte, b1: Byte, b2: Byte, i: int): (v: Register)
    requires 0 <= i < 4
  {
    if i == 0 then b0 % 64
    else if i == 1 then b0 / 64 + b1 % 16 * 4
    else if i == 2 then b1 / 16 + b2 % 4 * 16
    else b2 / 4
  }

  lemma DigitsMakeNumber(b0: Byte, b1: Byte, b2: Byte)
    ensures Digit(b0, b1, b2, 0) + 64 * Digit(b0, b1, b2, 1) + 4096 * Digit(b0, b1, b2, 2) + 262144 * Digit(b0, b1, b2, 3)
            == b0 + 256 * b1 + 65536 * b2
  {
  }

  lemma Position(g: int, i: int)
    requires 0 <= i < 4 && 0 <= g
    ensures ByteOf(4 * g + i) == 3 * g + (if i <= 1 then 0 else i - 1)
    ensures BitOf(4 * g + i) == (if i == 0 then 0 else 8 - 2 * i)
  {
    BitIsRemainder(4 * g + i);
  }

  lemma Bits0(b0: Byte, b1: Byte)
    ensures Bits(b0, b1, 0) == b0 % 64
  {
    hide Bits, Pow2;
    Powers();
    BitsAreSum(b0, b1, 0, b0, 0);
    RemainderUnique(b0 + b1 * 256, 64, b0 / 64 + b1 * 4, b0 % 64);
  }

  lemma Bits2(b0: Byte, b1: Byte)
    ensures Bits(b0, b1, 2) == b0 / 4
  {
    hide Bits, Pow2;
    Powers();
    BitsAreSum(b0, b1, 2, b0 / 4, b0 % 4);
    RemainderUnique(b0 / 4 + b1 * 64, 64, b1, b0 / 4);
  }

  lemma Bits4(b0: Byte, b1: Byte)
    ensures Bits(b0, b1, 4) == b0 / 16 + b1 % 4 * 16
  {
    hide Bits, Pow2;
    Powers();
    BitsAreSum(b0, b1, 4, b0 / 16, b0 % 16);
    RemainderUnique(b0 / 16 + b1 * 16, 64, b1 / 4, b0 / 16 + b1 % 4 * 16);
  }

  lemma Bits6(b0: Byte, b1: Byte)
    ensures Bits(b0, b1, 6) == b0 / 64 + b1 % 16 * 4
  {
    hide Bits, Pow2;
    Powers();
    BitsAreSum(b0, b1, 6, b0 / 64, b0 % 64);
    RemainderUnique(b0 / 64 + b1 * 4, 64, b1 / 16, b0 / 64 + b1 % 16 * 4);
  }

  lemma GetIsDigit(p: seq<Byte>, g: int, i: int)
    requires |p| == BYTES && 0 <= i < 4 && 0 <= g < GROUPS
    ensures Get(p, 4 * g + i) == Digit(p[3 * g], p[3 * g + 1], p[3 * g + 2], i)
  {
    Position(g, i);
    hide Bits, BitOf, ByteOf;
    if i == 0 {
      Bits0(p[3 * g], p[3 * g + 1]);
    } else if i == 1 {
      Bits6(p[3 * g], p[3 * g + 1]);
    } else if i == 2 {
      Bits4(p[3 * g + 1], p[3 * g + 2]);
    } else {
      Bits2(p[3 * g + 2], p[3 * g + 3]);
    }
  }

  /** A register at the start of a byte leaves the two bits above it. */
  lemma LowAtStart(b: Byte, v: Register)
    ensures Low(b, 0, v) == b / 64 * 64 + v
  {
    hide And, Or, Not, Pow2;
    Powers();
    MaskKeepsLow(b, b / 64, b % 64, 6);
    ComplementSubtracts(b, REGISTER_MAX, 32);
    OrAdds(b / 64, 6, v);
  }

  /** A register that ends in its byte leaves the next one alone. */
  lemma HighUntouched(b: Byte, fb8: nat, v: Register)
    requires fb8 == 6 || fb8 == 8
    ensures High(b, fb8, v) == b
  {
    hide High, ShiftRight, Pow2;
    Powers();
    ShiftsOut(v);
    ShiftsOut(REGISTER_MAX);
    HighIsSum(b, fb8, v, b, 0, 0, 0);
  }

  lemma ShiftsOut(v: Register)
    ensures ShiftRight(v, 6) == 0 && ShiftRight(v, 8) == 0
    ensures ShiftRight(v, 4) == v / 16 && ShiftRight(v, 2) == v / 4
  {
    hide ShiftRight, Pow2;
    Powers();
    ShiftDrops(0, v, 6);
    ShiftDrops(0, v, 8);
    ShiftDrops(v / 16, v % 16, 4);
    ShiftDrops(v / 4, v % 4, 2);
  }

  lemma Digits16(h: int, l: int)
    requires 0 <= h < 16 && 0 <= l < 16
    ensures (h * 16 + l) % 256 % 16 == l && (h * 16 + l) % 256 / 16 == h
  {
    assert (h * 16 + l) % 256 == h * 16 + l;
  }

  lemma Write0(b0: Byte, b1: Byte, v: Register)
    ensures Low(b0, 0, v) % 64 == v && Low(b0, 0, v) / 64 == b0 / 64 && High(b1, 8, v) == b1
  {
    hide Low, High;
    LowAtStart(b0, v);
    HighUntouched(b1, 8, v);
  }

  lemma Write2(b0: Byte, b1: Byte, v: Register)
    ensures Low(b0, 2, v) / 4 == v && Low(b0, 2, v) % 4 == b0 % 4 && High(b1, 6, v) == b1
  {
    hide Low, High;
    Powers();
    LowIsSum(b0, 2, v, b0 / 4, b0 % 4);
    HighUntouched(b1, 6, v);
  }

  lemma Write4(b0: Byte, b1: Byte, v: Register)
    ensures Low(b0, 4, v) / 16 == v % 16 && Low(b0, 4, v) % 16 == b0 % 16
    ensures High(b1, 4, v) % 4 == v / 16 && High(b1, 4, v) / 4 == b1 / 4
  {
    hide Low, High, ShiftRight, Pow2;
    Powers();
    ShiftsOut(v);
    ShiftsOut(REGISTER_MAX);
    LowIsSum(b0, 4, v, b0 / 16, b0 % 16);
    HighIsSum(b1, 4, v, b1 / 4, b1 % 4, 2, v / 16);
    RemainderUnique(v * 16 + b0 % 16, 256, v / 16, v % 16 * 16 + b0 % 16);
    Digits16(v % 16, b0 % 16);
  }

  lemma Write6(b0: Byte, b1: Byte, v: Register)
    ensures Low(b0, 6, v) / 64 == v % 4 && Low(b0, 6, v) % 64 == b0 % 64
    ensures High(b1, 2, v) % 16 == v / 4 && High(b1, 2, v) / 16 == b1 / 16
  {
    hide Low, High, ShiftRight, Pow2;
    Powers();
    ShiftsOut(v);
    ShiftsOut(REGISTER_MAX);
    LowIsSum(b0, 6, v, b0 / 64, b0 % 64);
    HighIsSum(b1, 2, v, b1 / 16, b1 % 16, 4, v / 4);
    RemainderUnique(v * 64 + b0 % 64, 256, v / 4, v % 4 * 64 + b0 % 64);
    Digits16(b1 / 16, v / 4);
  }

  lemma WrittenAt(p: seq<Byte>, g: int, i: int, v: Register, at: int, fb: int)
    requires |p| == BYTES && 0 <= i < 4 && 0 <= g < GROUPS
    requires at == 3 * g + (if i <= 1 then 0 else i - 1) && fb == if i == 0 then 0 else 8 - 2 * i
    ensures Written(p, 4 * g + i, v) == p[at := Low(p[at], fb, v)][at + 1 := High(p[at + 1], 8 - fb, v)]
  {
    hide Low, High, BitOf, ByteOf;
    Position(g, i);
  }

  /** Writing register 4g + i changes that digit of its three bytes and no other byte. */
  lemma WrittenGroup(p: seq<Byte>, g: int, i: int, v: Register, j: int)
    requires |p| == BYTES && 0 <= i < 4 && 0 <= g < GROUPS && 0 <= j < 4
    ensures var q := Written(p, 4 * g + i, v);
            Digit(q[3 * g], q[3 * g + 1], q[3 * g + 2], j)
            == (if j == i then v else Digit(p[3 * g], p[3 * g + 1], p[3 * g + 2], j))
  {
    hide Written, Low, High;
    if i == 0 {
      WrittenAt(p, g, i, v, 3 * g, 0);
      Write0(p[3 * g], p[3 * g + 1], v);
    } else if i == 1 {
      WrittenAt(p, g, i, v, 3 * g, 6);
      Write6(p[3 * g], p[3 * g + 1], v);
    } else if i == 2 {
      WrittenAt(p, g, i, v, 3 * g + 1, 4);
      Write4(p[3 * g + 1], p[3 * g + 2], v);
    } else {
      WrittenAt(p, g, i, v, 3 * g + 2, 2);
      Write2(p[3 * g + 2], p[3 * g + 3], v);
    }
  }

  lemma WrittenElsewhere(p: seq<Byte>, g: int, i: int, v: Register, k: int)
    requires |p| == BYTES && 0 <= i < 4 && 0 <= g < GROUPS && 0 <= k < BYTES && !(3 * g <= k < 3 * g + 3)
    ensures Written(p, 4 * g + i, v)[k] == p[k]
  {
    hide Written, Low, High;
    if i == 0 {
      WrittenAt(p, g, i, v, 3 * g, 0);
    } else if i == 1 {
      WrittenAt(p, g, i, v, 3 * g, 6);
    } else if i == 2 {
      WrittenAt(p, g, i, v, 3 * g + 1, 4);
    } else {
      WrittenAt(p, g, i, v, 3 * g + 2, 2);
      HighUntouched(p[3 * g + 3], 6, v);
    }
  }

  /** Reading back gives the written value for the register written and the old one for every other;
      the byte behind the registers is untouched. */
  lemma GetAfterWrite(p: seq<Byte>, r: int, v: Register, q: int)
    requires |p| == BYTES && 0 <= r < REGISTERS && 0 <= q < REGISTERS
    ensures Get(Written(p, r, v), q) == if q == r then v else Get(p, q)
    ensures Written(p, r, v)[BYTES - 1] == p[BYTES - 1]
  {
    hide Get, Written, Digit;
    var g, i, h, j := r / 4, r % 4, q / 4, q % 4;
    assert r == 4 * g + i && q == 4 * h + j;
    GetIsDigit(Written(p, r, v), h, j);
    GetIsDigit(p, h, j);
    if h == g {
      WrittenGroup(p, g, i, v, j);
    } else {
      WrittenElsewhere(p, g, i, v, 3 * h);
      WrittenElsewhere(p, g, i, v, 3 * h + 1);
      WrittenElsewhere(p, g, i, v, 3 * h + 2);
    }
    WrittenElsewhere(p, g, i, v, BYTES - 1);
  }

  // ----- Runs

  function WriteAll(p: seq<Byte>, ws: seq<(int, Register)>): (q: seq<Byte>)
    requires |p| == BYTES && forall w :: w in ws ==> 0 <= w.0 < REGISTERS
    ensures |q| == BYTES
  {
    if ws == [] then p else Written(WriteAll(p, ws[..|ws| - 1]), ws[|ws| - 1].0, ws[|ws| - 1].1)
  }

  /** The value last written to register r, or the one it started with. */
  function LastWrite(ws: seq<(int, Register)>, r: int, start: Register): Register {
    if ws == [] then start
    else if ws[|ws| - 1].0 == r then ws[|ws| - 1].1
    else LastWrite(ws[..|ws| - 1], r, start)
  }

  lemma {:induction false} EveryRunReadsLastWrite(p: seq<Byte>, ws: seq<(int, Register)>, r: int)
    requires |p| == BYTES && 0 <= r < REGISTERS && forall w :: w in ws ==> 0 <= w.0 < REGISTERS
    ensures Get(WriteAll(p, ws), r) == LastWrite(ws, r, Get(p, r))
  {
    hide Get, Written;
    if ws != [] {
      var front, w := ws[..|ws| - 1], ws[|ws| - 1];
      assert w in ws;
      EveryRunReadsLastWrite(p, front, r);
      GetAfterWrite(WriteAll(p, front), w.0, w.1, r);
    }
  }

  // ----- Counting

  /** What hll_dense_set leaves. */
  function Raised(p: seq<Byte>, r: nat, v: Register): (q: seq<Byte>)
    requires |p| == BYTES && r < REGISTERS
    ensures |q| == |p|
  {
    if v > Get(p, r) then Written(p, r, v) else p
  }

  /** hll_dense_set */
  method DenseSet(p: array<Byte>, r: nat, v: Register) returns (changed: bool)
    requires p.Length == BYTES && r < REGISTERS
    modifies p
    ensures changed == (v > Get(old(p[..]), r)) && p[..] == Raised(old(p[..]), r, v)
  {
    hide And, Or, Not, ShiftLeft, ShiftRight;
    BitIsRemainder(r);
    var old0 := Bits(p[ByteOf(r)], p[ByteOf(r) + 1], BitOf(r));
    changed := v > old0;
    if changed {
      Set(p, r, v);
    }
  }

  function RaiseAll(p: seq<Byte>, ws: seq<(int, Register)>): (q: seq<Byte>)
    requires |p| == BYTES && forall w :: w in ws ==> 0 <= w.0 < REGISTERS
    ensures |q| == BYTES
  {
    if ws == [] then p else Raised(RaiseAll(p, ws[..|ws| - 1]), ws[|ws| - 1].0, ws[|ws| - 1].1)
  }

  /** Every register holds the largest value it was ever offered, whatever the order of the offers and
      the values its neighbours were offered. */
  lemma {:induction false} EveryRunKeepsLargest(p: seq<Byte>, ws: seq<(int, Register)>, r: nat)
    requires |p| == BYTES && r < REGISTERS && forall w :: w in ws ==> 0 <= w.0 < REGISTERS
    ensures var v := Get(RaiseAll(p, ws), r);
            && v >= Get(p, r) && (forall w :: w in ws && w.0 == r ==> v >= w.1)
            && (v == Get(p, r) || (r, v) in ws)
  {
    hide Get, Written;
    if ws != [] {
      var front, w := ws[..|ws| - 1], ws[|ws| - 1];
      assert w in ws;
      assert ws == front + [w];
      EveryRunKeepsLargest(p, front, r);
      GetAfterWrite(RaiseAll(p, front), w.0, w.1, r);
    }
  }
}
