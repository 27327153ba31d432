/** Encodings of key fields: sign flips, float transforms and byte order (class KeyEncoder), for
    hosts of either endianness.  Machine words are integers in range. */
module KeyEncoder {
  import opened Arithmetic
  import opened BitOperations
  import opened Words

  const SIGN_08 := 0x80
  const SIGN_16 := 0x8000
  const SIGN_32 := 0x8000_0000
  const SIGN_64 := 0x8000_0000_0000_0000

  // ----- Byte order

  /** The masks and shifts of to_endian_u16, to_endian_u32 and to_endian_u64. */
  function Swap16(x: nat): nat {
    Or(ShiftLeft(And(x, 0x00FF), 8), ShiftRight(And(x, 0xFF00), 8))
  }

  function Swap32(x: nat): nat {
    Or(Or(Or(ShiftLeft(And(x, 0x0000_00FF), 24),
             ShiftLeft(And(x, 0x0000_FF00), 8)),
          ShiftRight(And(x, 0x00FF_0000), 8)),
       ShiftRight(And(x, 0xFF00_0000), 24))
  }

  function Swap64(x: nat): nat {
    Or(Or(Or(Or(Or(Or(Or(ShiftLeft(And(x, 0x0000_0000_0000_00FF), 56),
                         ShiftLeft(And(x, 0x0000_0000_0000_FF00), 40)),
                      ShiftLeft(And(x, 0x0000_0000_00FF_0000), 24)),
                   ShiftLeft(And(x, 0x0000_0000_FF00_0000), 8)),
                ShiftRight(And(x, 0x0000_00FF_0000_0000), 8)),
             ShiftRight(And(x, 0x0000_FF00_0000_0000), 24)),
          ShiftRight(And(x, 0x00FF_0000_0000_0000), 40)),
       ShiftRight(And(x, 0xFF00_0000_0000_0000), 56))
  }

  /** The word with its bytes in reverse: the halves exchanged, and reversed themselves. */
  function Reverse16(x: u16): u16 { Join(x % 0x100, x / 0x100, 0x100) }
  function Reverse32(x: u32): u32 { Join(Reverse16(x % 0x1_0000), Reverse16(x / 0x1_0000), 0x1_0000) }
  function Reverse64(x: u64): u64 {
    Join(Reverse32(x % 0x1_0000_0000), Reverse32(x / 0x1_0000_0000), 0x1_0000_0000)
  }

  function Join(high: nat, low: nat, base: nat): (r: nat)
    requires high < base && low < base
    ensures r < base * base && r / base == high && r % base == low
  {
    JoinFacts(high, low, base);
    high * base + low
  }

  lemma JoinFacts(high: nat, low: nat, base: nat)
    requires high < base && low < base
    ensures var r := high * base + low; 0 <= r < base * base && r / base == high && r % base == low
  {
    MultiplyMonotone(high + 1, base, base);
    RemainderUnique(high * base + low, base, high, low);
    QuotientAtLeast(high * base + low, base, high);
    QuotientAtLeast(high * base + low, base, high + 1);
  }

  /** A mask m of the byte that starts at bit n. */
  lemma MaskedByte(x: nat, high: nat, b: u8, low: nat, m: nat, n: nat, p: nat)
    requires p == Pow2(n) && m == 255 * p && low < p && x == (high * 256 + b) * p + low
    ensures And(x, m) == b * p
  {
    hide And, Pow2;
    BytePowers();
    MaskKeepsField(x, high * 256 + b, high, b, 8, low, n, m);
  }

  /** Or puts one more byte, to start at bit n, behind those gathered so far. */
  lemma NextByte(h: nat, b: u8, n: nat, p: nat)
    requires p == Pow2(n)
    ensures Or(h * (256 * p), b * p) == (h * 256 + b) * p
  {
    hide Or, Pow2;
    Pow2Adds8(n);
    MultiplyMonotone(b, 255, p);
    OrAdds(h, n + 8, b * p);
  }

  lemma Shifts(x: nat, n: nat, p: nat)
    requires p == Pow2(n)
    ensures ShiftLeft(x, n) == x * p && ShiftRight(x * p, n) == x
  {
    ShiftDrops(x, 0, n);
  }

  lemma Swap16Reverses(x: u16)
    ensures Swap16(x) == Reverse16(x)
  {
    hide And, Or, ShiftLeft, ShiftRight, Pow2;
    BytePowers();
    var a, b := x / 256, x % 256;
    MaskedByte(x, a, b, 0, 0xFF, 0, 1);
    MaskedByte(x, 0, a, b, 0xFF00, 8, 0x100);
    Shifts(b, 8, 0x100);
    Shifts(a, 8, 0x100);
    NextByte(b, a, 0, 1);
  }

  lemma SwapOfHalf(a: u8, b: u8, c: u8, d: u8)
    ensures Swap32(((a * 256 + b) * 256 + c) * 256 + d) == ((d * 256 + c) * 256 + b) * 256 + a
  {
    hide And, Or, ShiftLeft, ShiftRight, Pow2;
    BytePowers();
    var x := ((a * 256 + b) * 256 + c) * 256 + d;
    MaskedByte(x, (a * 256 + b) * 256 + c, d, 0, 0xFF, 0, 1);
    MaskedByte(x, a * 256 + b, c, d, 0xFF00, 8, 0x100);
    MaskedByte(x, a, b, c * 256 + d, 0xFF_0000, 16, 0x1_0000);
    MaskedByte(x, 0, a, (b * 256 + c) * 256 + d, 0xFF00_0000, 24, 0x100_0000);
    Shifts(d, 24, 0x100_0000);
    Shifts(c * 0x100, 8, 0x100);
    Shifts(b * 0x100, 8, 0x100);
    Shifts(a, 24, 0x100_0000);
    NextByte(d, c, 16, 0x1_0000);
    NextByte(d * 256 + c, b, 8, 0x100);
    NextByte((d * 256 + c) * 256 + b, a, 0, 1);
  }

  /** The word of eight bytes, the most significant one first. */
  function Word(a: u8, b: u8, c: u8, d: u8, e: u8, f: u8, g: u8, h: u8): u64 {
    ((((((a * 256 + b) * 256 + c) * 256 + d) * 256 + e) * 256 + f) * 256 + g) * 256 + h
  }

  lemma LowBytesMove(x: nat, a: u8, b: u8, c: u8, d: u8, e: u8, f: u8, g: u8, h: u8)
    requires x == Word(a, b, c, d, e, f, g, h)
    ensures ShiftLeft(And(x, 0xFF), 56) == h * 0x100_0000_0000_0000
    ensures ShiftLeft(And(x, 0xFF00), 40) == g * 0x1_0000_0000_0000
    ensures ShiftLeft(And(x, 0xFF_0000), 24) == f * 0x100_0000_0000
    ensures ShiftLeft(And(x, 0xFF00_0000), 8) == e * 0x1_0000_0000
  {
    hide And, ShiftLeft, ShiftRight, Pow2;
    BytePowers();
    MaskedByte(x, (((((a * 256 + b) * 256 + c) * 256 + d) * 256 + e) * 256 + f) * 256 + g, h, 0, 0xFF, 0, 0x1);
    Shifts(h, 56, 0x100_0000_0000_0000);
    MaskedByte(x, ((((a * 256 + b) * 256 + c) * 256 + d) * 256 + e) * 256 + f, g, h, 0xFF00, 8, 0x100);
    Shifts(g * 0x100, 40, 0x100_0000_0000);
    MaskedByte(x, (((a * 256 + b) * 256 + c) * 256 + d) * 256 + e, f, g * 256 + h, 0xFF_0000, 16, 0x1_0000);
    Shifts(f * 0x1_0000, 24, 0x100_0000);
    MaskedByte(x, ((a * 256 + b) * 256 + c) * 256 + d, e, (f * 256 + g) * 256 + h, 0xFF00_0000, 24, 0x100_0000);
    Shifts(e * 0x100_0000, 8, 0x100);
  }

  lemma HighBytesMove(x: nat, a: u8, b: u8, c: u8, d: u8, e: u8, f: u8, g: u8, h: u8)
    requires x == Word(a, b, c, d, e, f, g, h)
    ensures ShiftRight(And(x, 0xFF_0000_0000), 8) == d * 0x100_0000
    ensures ShiftRight(And(x, 0xFF00_0000_0000), 24) == c * 0x1_0000
    ensures ShiftRight(And(x, 0xFF_0000_0000_0000), 40) == b * 0x100
    ensures ShiftRight(And(x, 0xFF00_0000_0000_0000), 56) == a
  {
    hide And, ShiftLeft, ShiftRight, Pow2;
    BytePowers();
    MaskedByte(x, (a * 256 + b) * 256 + c, d, ((e * 256 + f) * 256 + g) * 256 + h, 0xFF_0000_0000, 32, 0x1_0000_0000);
    Shifts(d * 0x100_0000, 8, 0x100);
    MaskedByte(x, a * 256 + b, c, (((d * 256 + e) * 256 + f) * 256 + g) * 256 + h, 0xFF00_0000_0000, 40, 0x100_0000_0000);
    Shifts(c * 0x1_0000, 24, 0x100_0000);
    MaskedByte(x, a, b, ((((c * 256 + d) * 256 + e) * 256 + f) * 256 + g) * 256 + h, 0xFF_0000_0000_0000, 48, 0x1_0000_0000_0000);
    Shifts(b * 0x100, 40, 0x100_0000_0000);
    MaskedByte(x, 0, a, (((((b * 256 + c) * 256 + d) * 256 + e) * 256 + f) * 256 + g) * 256 + h, 0xFF00_0000_0000_0000, 56, 0x100_0000_0000_0000);
    Shifts(a, 56, 0x100_0000_0000_0000);
  }

  lemma SwapOfWord(a: u8, b: u8, c: u8, d: u8, e: u8, f: u8, g: u8, h: u8)
    ensures Swap64(Word(a, b, c, d, e, f, g, h)) == Word(h, g, f, e, d, c, b, a)
  {
    hide And, Or, ShiftLeft, ShiftRight, Pow2;
    BytePowers();
    var x := Word(a, b, c, d, e, f, g, h);
    LowBytesMove(x, a, b, c, d, e, f, g, h);
    HighBytesMove(x, a, b, c, d, e, f, g, h);
    NextByte(h, g, 48, 0x1_0000_0000_0000);
    var w := h * 256 + g;
    NextByte(w, f, 40, 0x100_0000_0000);
    w := w * 256 + f;
    NextByte(w, e, 32, 0x1_0000_0000);
    w := w * 256 + e;
    NextByte(w, d, 24, 0x100_0000);
    w := w * 256 + d;
    NextByte(w, c, 16, 0x1_0000);
    w := w * 256 + c;
    NextByte(w, b, 8, 0x100);
    w := w * 256 + b;
    NextByte(w, a, 0, 1);
  }

  /** The four bytes of half a word. */
  lemma BytesOf(x: u32) returns (a: u8, b: u8, c: u8, d: u8)
    ensures x == ((a * 256 + b) * 256 + c) * 256 + d
    ensures Reverse32(x) == ((d * 256 + c) * 256 + b) * 256 + a
  {
    a, b, c, d := x / 0x1_0000 / 256, x / 0x1_0000 % 256, x % 0x1_0000 / 256, x % 256;
  }

  lemma Swap32Reverses(x: u32)
    ensures Swap32(x) == Reverse32(x)
  {
    hide Swap32, Reverse32;
    var a, b, c, d := BytesOf(x);
    SwapOfHalf(a, b, c, d);
  }

  lemma Swap64Reverses(x: u64)
    ensures Swap64(x) == Reverse64(x)
  {
    hide Swap64, Reverse32;
    var a, b, c, d := BytesOf(x / 0x1_0000_0000);
    var e, f, g, h := BytesOf(x % 0x1_0000_0000);
    SwapOfWord(a, b, c, d, e, f, g, h);
    assert x == Word(a, b, c, d, e, f, g, h);
  }

  /** to_endian_u16 and its siblings; `big` says whether the host is big-endian. */
  function ToEndian16(big: bool, x: u16): u16 { Swap16Reverses(x); if big then x else Swap16(x) }
  function ToEndian32(big: bool, x: u32): u32 { Swap32Reverses(x); if big then x else Swap32(x) }
  function ToEndian64(big: bool, x: u64): u64 { Swap64Reverses(x); if big then x else Swap64(x) }

  /** Least significant byte first. */
  function Little16(x: u16): (s: seq<u8>) ensures |s| == 2 { [x % 0x100, x / 0x100] }
  function Little32(x: u32): (s: seq<u8>) ensures |s| == 4 { Little16(x % 0x1_0000) + Little16(x / 0x1_0000) }
  function Little64(x: u64): (s: seq<u8>) ensures |s| == 8 {
    Little32(x % 0x1_0000_0000) + Little32(x / 0x1_0000_0000)
  }

  /** Most significant byte first. */
  function Big16(x: u16): (s: seq<u8>) ensures |s| == 2 { [x / 0x100, x % 0x100] }
  function Big32(x: u32): (s: seq<u8>) ensures |s| == 4 { Big16(x / 0x1_0000) + Big16(x % 0x1_0000) }
  function Big64(x: u64): (s: seq<u8>) ensures |s| == 8 {
    Big32(x / 0x1_0000_0000) + Big32(x % 0x1_0000_0000)
  }

  /** The bytes of a word in memory, lowest address first, and the word read from there. */
  function Store16(big: bool, x: u16): seq<u8> { if big then Big16(x) else Little16(x) }
  function Store32(big: bool, x: u32): seq<u8> { if big then Big32(x) else Little32(x) }
  function Store64(big: bool, x: u64): seq<u8> { if big then Big64(x) else Little64(x) }

  function Load16(big: bool, s: seq<u8>): u16
    requires |s| == 2
  {
    if big then Join(s[0], s[1], 0x100) else Join(s[1], s[0], 0x100)
  }

  function Load32(big: bool, s: seq<u8>): u32
    requires |s| == 4
  {
    var a, b := Load16(big, s[..2]), Load16(big, s[2..]);
    if big then Join(a, b, 0x1_0000) else Join(b, a, 0x1_0000)
  }

  function Load64(big: bool, s: seq<u8>): u64
    requires |s| == 8
  {
    var a, b := Load32(big, s[..4]), Load32(big, s[4..]);
    if big then Join(a, b, 0x1_0000_0000) else Join(b, a, 0x1_0000_0000)
  }

  // ----- Sign masks

  predicate IsSign(mask: nat) {
    mask == SIGN_08 || mask == SIGN_16 || mask == SIGN_32 || mask == SIGN_64
  }

  /** The bits of the word a sign mask belongs to. */
  function WordBits(mask: nat): (w: nat)
    requires IsSign(mask)
    ensures w > 0 && Pow2(w - 1) == mask && Pow2(w) == 2 * mask
  {
    SignPowers();
    if mask == SIGN_08 then 8 else if mask == SIGN_16 then 16 else if mask == SIGN_32 then 32 else 64
  }

  lemma SignPowers()
    ensures Pow2(7) == SIGN_08 && Pow2(15) == SIGN_16 && Pow2(31) == SIGN_32 && Pow2(63) == SIGN_64
  {
    BytePowers();
    Pow2Adds8(56);
  }

  /** The operators on a word and its sign mask. */
  lemma SignBit(x: nat, mask: nat)
    requires IsSign(mask) && x < 2 * mask
    ensures Xor(x, mask) == if x < mask then x + mask else x - mask
    ensures Or(x, mask) == if x < mask then x + mask else x
    ensures ShiftRight(And(x, mask), WordBits(mask) - 1) == if x < mask then 0 else 1
    ensures And(x, Not(mask, WordBits(mask))) == if x < mask then x else x - mask
    ensures Not(x, WordBits(mask)) == 2 * mask - 1 - x
  {
    hide And, Or, Xor, Not, ShiftRight, Pow2, WordBits, IsSign;
    var w := WordBits(mask);
    var h, l := if x < mask then 0 else 1, if x < mask then x else x - mask;
    assert h * mask + l == x && 1 * mask + 0 == mask;
    OnOne(h);
    XorSplits(h, l, 1, 0, w - 1);
    OrSplits(h, l, 1, 0, w - 1);
    AndSplits(h, l, 1, 0, w - 1);
    XorZero(l);
    OrZero(l);
    ComplementSubtracts(x, mask, w);
    NotIsDifference(x, w);
    ShiftDrops(h, 0, w - 1);
  }

  lemma OnOne(h: nat)
    requires h <= 1
    ensures Xor(h, 1) == 1 - h && Or(h, 1) == 1 && And(h, 1) == h
  {
  }

  // ----- Sign flips: cast to unsigned, then exclusive-or with the sign mask

  function EncodeI8(x: i8): u8 { Flip(x % 0x100, SIGN_08) }
  function EncodeI16(x: i16): u16 { Flip(x % 0x1_0000, SIGN_16) }
  function EncodeI32(x: i32): u32 { Flip(x % 0x1_0000_0000, SIGN_32) }
  function EncodeI64(x: i64): u64 { Flip(x % 0x1_0000_0000_0000_0000, SIGN_64) }

  function Flip(x: nat, mask: nat): (r: nat)
    requires IsSign(mask) && x < 2 * mask
    ensures r < 2 * mask
  {
    SignBit(x, mask);
    Xor(x, mask)
  }

  /** The cast of an unsigned word back to signed. */
  function ToSigned(x: nat, mask: nat): (r: int)
    requires x < 2 * mask
    ensures 0 - mask <= r < mask
  {
    if x < mask then x else x - 2 * mask
  }

  function DecodeI8(x: u8): i8 { ToSigned(Flip(x, SIGN_08), SIGN_08) }
  function DecodeI16(x: u16): i16 { ToSigned(Flip(x, SIGN_16), SIGN_16) }
  function DecodeI32(x: u32): i32 { ToSigned(Flip(x, SIGN_32), SIGN_32) }
  function DecodeI64(x: u64): i64 { ToSigned(Flip(x, SIGN_64), SIGN_64) }

  // ----- Floats, as IEEE 754 bit patterns (IEEE 754-2008, section 3.4)

  const INFINITY_32 := 0x7F80_0000
  const INFINITY_64 := 0x7FF0_0000_0000_0000

  predicate IsNaN(x: nat, mask: nat, infinity: nat)
    requires mask > 0
  {
    x % mask > infinity
  }

  /** Numbers are ordered by sign and magnitude, and magnitudes as their bits are: this integer
      has the order of the number.  Both zeros are 0. */
  function Rank(x: nat, mask: nat): int
    requires mask > 0
  {
    if x < mask then x else mask - x
  }

  /** The comparison `in >= 0.0`: true of both zeros, false of NaN. */
  predicate AtLeastZero(x: nat, mask: nat, infinity: nat)
    requires mask > 0
  {
    !IsNaN(x, mask, infinity) && Rank(x, mask) >= 0
  }

  /** encode_f32 and encode_f64: set the sign bit of a number at least 0, else flip all bits. */
  function EncodeFloat(x: nat, mask: nat, infinity: nat): (r: nat)
    requires IsSign(mask) && x < 2 * mask
    ensures r < 2 * mask
  {
    SignBit(x, mask);
    if AtLeastZero(x, mask, infinity) then Or(x, mask) else Not(x, WordBits(mask))
  }

  function DecodeFloat(x: nat, mask: nat): (r: nat)
    requires IsSign(mask) && x < 2 * mask
    ensures r < 2 * mask
  {
    SignBit(x, mask);
    var w := WordBits(mask);
    if ShiftRight(And(x, mask), w - 1) > 0 then And(x, Not(mask, w)) else Not(x, w)
  }

  function EncodeF32(x: u32): u32 { EncodeFloat(x, SIGN_32, INFINITY_32) }
  function EncodeF64(x: u64): u64 { EncodeFloat(x, SIGN_64, INFINITY_64) }
  function DecodeF32(x: u32): u32 { DecodeFloat(x, SIGN_32) }
  function DecodeF64(x: u64): u64 { DecodeFloat(x, SIGN_64) }

  // ----- Facts about integers and floats

  function Order(a: int, b: int): int {
    if a < b then -1 else if a > b then 1 else 0
  }

  /** The signed encodings are increasing, and decoding undoes them. */
  lemma SignedEncoding(x: int, mask: nat)
    requires IsSign(mask) && 0 - mask <= x < mask
    ensures 0 <= x % (2 * mask) < 2 * mask
    ensures Flip(x % (2 * mask), mask) == x + mask
    ensures ToSigned(Flip(Flip(x % (2 * mask), mask), mask), mask) == x
  {
    hide Xor, IsSign;
    var u := if x >= 0 then x else x + 2 * mask;
    RemainderUnique(x, 2 * mask, if x >= 0 then 0 else -1, u);
    SignBit(u, mask);
    SignBit(x + mask, mask);
  }

  /** The float encoding orders numbers as numbers, the two zeros alike. */
  lemma FloatOrder(a: nat, b: nat, mask: nat, infinity: nat)
    requires IsSign(mask) && a < 2 * mask && b < 2 * mask && infinity < mask
    requires !IsNaN(a, mask, infinity) && !IsNaN(b, mask, infinity)
    ensures Order(EncodeFloat(a, mask, infinity), EncodeFloat(b, mask, infinity)) ==
            Order(Rank(a, mask), Rank(b, mask))
  {
    hide Or, Not, WordBits;
    SignBit(a, mask);
    SignBit(b, mask);
  }

  /** NaNs have no place in that order, although they compare as equal to everything: those with the
      sign bit sort below every number. */
  lemma NaNSortsFirst(a: nat, b: nat, mask: nat, infinity: nat)
    requires IsSign(mask) && mask <= a < 2 * mask && b < 2 * mask && infinity < mask
    requires IsNaN(a, mask, infinity) && !IsNaN(b, mask, infinity)
    ensures EncodeFloat(a, mask, infinity) < EncodeFloat(b, mask, infinity)
  {
    hide Or, Not, WordBits;
    SignBit(a, mask);
    SignBit(b, mask);
    MaskRemainder(a, mask);
    MaskRemainder(b, mask);
  }

  /** Those without it are encoded as a number is, the positive one whose pattern is their complement
      in the bits below the sign. */
  lemma NaNLooksLikeNumber(a: nat, mask: nat, infinity: nat)
    requires IsSign(mask) && infinity < a < mask <= 2 * infinity
    ensures IsNaN(a, mask, infinity) && !IsNaN(mask - 1 - a, mask, infinity)
    ensures EncodeFloat(a, mask, infinity) == EncodeFloat(mask - 1 - a, mask, infinity)
  {
    hide Or, Not, WordBits;
    SignBit(a, mask);
    SignBit(mask - 1 - a, mask);
    MaskRemainder(a, mask);
    MaskRemainder(mask - 1 - a, mask);
  }

  lemma MaskRemainder(x: nat, mask: nat)
    requires x < 2 * mask
    ensures x % mask == if x < mask then x else x - mask
  {
  }

  /** Decoding recovers every pattern except negative zero, which comes back as zero, and the
      NaNs without sign bit, which are lost. */
  lemma FloatRoundTrip(x: nat, mask: nat, infinity: nat)
    requires IsSign(mask) && x < 2 * mask && infinity < mask
    ensures DecodeFloat(EncodeFloat(x, mask, infinity), mask) == x
            <==> x != mask && !(IsNaN(x, mask, infinity) && x < mask)
    ensures DecodeFloat(EncodeFloat(mask, mask, infinity), mask) == 0
  {
    hide Or, And, Not, WordBits, ShiftRight;
    SignBit(x, mask);
    SignBit(mask, mask);
    SignBit(EncodeFloat(x, mask, infinity), mask);
    MaskRemainder(x, mask);
  }

  // ----- Byte strings in memory order

  /** memcmp, then length: the order of rocksdb's Slice and of std::string. */
  function Compare(a: seq<u8>, b: seq<u8>): int
    decreases |a|
  {
    if a == [] then if b == [] then 0 else -1
    else if b == [] then 1
    else if a[0] != b[0] then Order(a[0], b[0])
    else Compare(a[1..], b[1..])
  }

  /** Strings of equal length decide before anything that follows them. */
  lemma {:induction false} CompareFront(a: seq<u8>, b: seq<u8>, x: seq<u8>, y: seq<u8>)
    requires |a| == |b|
    ensures Compare(a + x, b + y) == if Compare(a, b) != 0 then Compare(a, b) else Compare(x, y)
    decreases |a|
  {
    if a == [] {
      assert a + x == x && b + y == y;
    } else {
      assert (a + x)[1..] == a[1..] + x && (b + y)[1..] == b[1..] + y;
      CompareFront(a[1..], b[1..], x, y);
    }
  }

  lemma {:induction false} CompareSelf(a: seq<u8>)
    ensures Compare(a, a) == 0
    decreases |a|
  {
    if a != [] { CompareSelf(a[1..]); }
  }

  // ----- Words in memory

  /** What append_u16, append_u32 and append_u64 write is big-endian on every host. */
  lemma StoredIsBig16(big: bool, x: u16)
    ensures Store16(big, ToEndian16(big, x)) == Big16(x)
  {
    hide Swap16;
    Swap16Reverses(x);
  }

  lemma StoredIsBig32(big: bool, x: u32)
    ensures Store32(big, ToEndian32(big, x)) == Big32(x)
  {
    hide Swap32;
    Swap32Reverses(x);
  }

  lemma StoredIsBig64(big: bool, x: u64)
    ensures Store64(big, ToEndian64(big, x)) == Big64(x)
  {
    hide Swap64;
    Swap64Reverses(x);
  }

  lemma LoadOfBig32(big: bool, x: u32)
    ensures Load32(big, Big32(x)) == if big then x else Reverse32(x)
  {
  }

  lemma LoadOfBig64(big: bool, x: u64)
    ensures Load64(big, Big64(x)) == if big then x else Reverse64(x)
  {
    hide Reverse32, Load32, Big32;
    var hi, lo := x / 0x1_0000_0000, x % 0x1_0000_0000;
    assert Big64(x)[..4] == Big32(hi) && Big64(x)[4..] == Big32(lo);
    LoadOfBig32(big, hi);
    LoadOfBig32(big, lo);
  }

  lemma ReverseTwice32(x: u32)
    ensures Reverse32(Reverse32(x)) == x
  {
  }

  lemma ReverseTwice64(x: u64)
    ensures Reverse64(Reverse64(x)) == x
  {
    hide Reverse32;
    ReverseTwice32(x / 0x1_0000_0000);
    ReverseTwice32(x % 0x1_0000_0000);
  }

  /** Swapped, it is the number the bytes are of. */
  lemma LoadedIsNumber16(big: bool, x: u16)
    ensures ToEndian16(big, Load16(big, Big16(x))) == x
  {
    hide Swap16;
    Swap16Reverses(Reverse16(x));
  }

  lemma LoadedIsNumber32(big: bool, x: u32)
    ensures ToEndian32(big, Load32(big, Big32(x))) == x
  {
    hide Swap32, Load32, Big32;
    LoadOfBig32(big, x);
    Swap32Reverses(Reverse32(x));
    ReverseTwice32(x);
  }

  lemma LoadedIsNumber64(big: bool, x: u64)
    ensures ToEndian64(big, Load64(big, Big64(x))) == x
  {
    hide Swap64, Load64, Big64, Reverse64;
    LoadOfBig64(big, x);
    Swap64Reverses(Reverse64(x));
    ReverseTwice64(x);
  }

  // ----- Big-endian strings of any width

  function Pow256(w: nat): (p: nat)
    ensures p > 0
  {
    if w == 0 then 1 else 256 * Pow256(w - 1)
  }

  /** The w low-order bytes of n, most significant first. */
  function BigEndian(w: nat, n: nat): (s: seq<u8>)
    ensures |s| == w
  {
    if w == 0 then [] else BigEndian(w - 1, n / 256) + [n % 256]
  }

  function Number(s: seq<u8>): nat {
    if s == [] then 0 else Number(s[..|s| - 1]) * 256 + s[|s| - 1]
  }

  lemma {:induction false} NumberOfBigEndian(w: nat, n: nat)
    requires n < Pow256(w)
    ensures Number(BigEndian(w, n)) == n
  {
    if w > 0 {
      NumberOfBigEndian(w - 1, n / 256);
      var s := BigEndian(w, n);
      assert s[..|s| - 1] == BigEndian(w - 1, n / 256);
    }
  }

  lemma {:induction false} BigEndianOfNumber(s: seq<u8>)
    ensures BigEndian(|s|, Number(s)) == s && Number(s) < Pow256(|s|)
  {
    if s != [] {
      var front := s[..|s| - 1];
      BigEndianOfNumber(front);
      assert s == front + [s[|s| - 1]];
    }
  }

  /** Memory order of big-endian strings is the order of the numbers. */
  lemma {:induction false} BigEndianOrder(w: nat, a: nat, b: nat)
    requires a < Pow256(w) && b < Pow256(w)
    ensures Compare(BigEndian(w, a), BigEndian(w, b)) == Order(a, b)
  {
    if w > 0 {
      BigEndianOrder(w - 1, a / 256, b / 256);
      CompareFront(BigEndian(w - 1, a / 256), BigEndian(w - 1, b / 256), [a % 256], [b % 256]);
      assert [a % 256][1..] == [] && [b % 256][1..] == [];
    }
  }

  lemma BigEndianOfWidth2(x: u16)
    ensures BigEndian(2, x) == Big16(x)
  {
  }

  lemma BigEndianOfWidth4(x: u32)
    ensures BigEndian(4, x) == Big32(x)
  {
    BigEndianOfWidth2(x / 0x1_0000);
    assert x / 256 / 256 == x / 0x1_0000;
    assert BigEndian(3, x / 256) == BigEndian(2, x / 0x1_0000) + [x / 256 % 256];
    var lo := x % 0x1_0000;
    assert lo / 256 == x / 256 % 256 && lo % 256 == x % 256;
  }

  /** The last four bytes of a big-endian string. */
  lemma PeelFour(w: nat, n: nat)
    ensures var n1 := n / 256; var n2 := n1 / 256; var n3 := n2 / 256;
            BigEndian(w + 4, n) == BigEndian(w, n3 / 256) + [n3 % 256, n2 % 256, n1 % 256, n % 256]
  {
    var n1 := n / 256;
    var n2 := n1 / 256;
    var n3 := n2 / 256;
    assert BigEndian(w + 4, n) == BigEndian(w + 3, n1) + [n % 256];
    assert BigEndian(w + 3, n1) == BigEndian(w + 2, n2) + [n1 % 256];
    assert BigEndian(w + 2, n2) == BigEndian(w + 1, n3) + [n2 % 256];
  }

  lemma BigEndianOfWidth8(x: u64)
    ensures BigEndian(8, x) == Big64(x)
  {
    var hi, lo := x / 0x1_0000_0000, x % 0x1_0000_0000;
    BigEndianOfWidth4(hi);
    BigEndianOfWidth4(lo);
    PeelFour(4, x);
    PeelFour(0, lo);
    LowBytes(hi, lo);
  }

  lemma LowBytes(hi: nat, lo: u32)
    ensures var x := hi * 0x1_0000_0000 + lo;
            && x % 256 == lo % 256
            && x / 256 % 256 == lo / 256 % 256
            && x / 256 / 256 % 256 == lo / 256 / 256 % 256
            && x / 256 / 256 / 256 % 256 == lo / 256 / 256 / 256 % 256
            && x / 256 / 256 / 256 / 256 == hi
  {
    var x := hi * 0x1_0000_0000 + lo;
    assert x / 256 == hi * 0x100_0000 + lo / 256;
    assert x / 256 / 256 == hi * 0x1_0000 + lo / 256 / 256;
    assert x / 256 / 256 / 256 == hi * 0x100 + lo / 256 / 256 / 256;
  }
}
