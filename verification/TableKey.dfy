/** Composite keys: typed values appended to a byte string whose byte order is the order of the
    values (class MutTableKey), the extractors that read them back (class TableKey), and the
    rewriting of a partition column in place. */
module TableKey {
  import opened KeyEncoder
  import opened Words

  datatype SignedKind = Int32 | Time
  datatype UnsignedKind = UInt32 | Timestamp | Date
  datatype LongKind = UInt64 | DateTime

  /** The types that append_value accepts. */
  datatype Type = TBool | TInt8 | TUInt8 | TInt16 | TUInt16 | TSigned32(ks: SignedKind)
    | TUnsigned32(ku: UnsignedKind) | TInt64 | TUnsigned64(kl: LongKind) | TFloat | TDouble | TString

  /** ExprValue.  Floats are bit patterns. */
  datatype Value =
    | Bool(b: bool)
    | Int8(i8: i8) | UInt8(u8: u8)
    | Int16(i16: i16) | UInt16(u16: u16)
    | Signed32(ks: SignedKind, i32: i32) | Unsigned32(ku: UnsignedKind, u32: u32)
    | Int64(i64: i64) | Unsigned64(kl: LongKind, u64: u64)
    | Float(f32: u32) | Double(f64: u64)
    | Str(s: seq<u8>)

  function TypeOf(v: Value): Type {
    match v
    case Bool(_) => TBool
    case Int8(_) => TInt8
    case UInt8(_) => TUInt8
    case Int16(_) => TInt16
    case UInt16(_) => TUInt16
    case Signed32(k, _) => TSigned32(k)
    case Unsigned32(k, _) => TUnsigned32(k)
    case Int64(_) => TInt64
    case Unsigned64(k, _) => TUnsigned64(k)
    case Float(_) => TFloat
    case Double(_) => TDouble
    case Str(_) => TString
  }

  /** The sign of ExprValue::compare on two values of one type. */
  function CompareValues(a: Value, b: Value): int
    requires TypeOf(a) == TypeOf(b)
  {
    match a
    case Bool(x) => Order(if x then 1 else 0, if b.b then 1 else 0)
    case Int8(x) => Order(x, b.i8)
    case UInt8(x) => Order(x, b.u8)
    case Int16(x) => Order(x, b.i16)
    case UInt16(x) => Order(x, b.u16)
    case Signed32(_, x) => Order(x, b.i32)
    case Unsigned32(_, x) => Order(x, b.u32)
    case Int64(x) => Order(x, b.i64)
    case Unsigned64(_, x) => Order(x, b.u64)
    case Float(x) => CompareFloats(x, b.f32, SIGN_32, INFINITY_32)
    case Double(x) => CompareFloats(x, b.f64, SIGN_64, INFINITY_64)
    case Str(x) => Compare(x, b.s)
  }

  /** a > b ? 1 : (a < b ? -1 : 0): comparisons with a NaN are false. */
  function CompareFloats(a: nat, b: nat, mask: nat, infinity: nat): int
    requires mask > 0
  {
    if IsNaN(a, mask, infinity) || IsNaN(b, mask, infinity) then 0 else Order(Rank(a, mask), Rank(b, mask))
  }

  function Width(t: Type): nat
    requires !t.TString?
  {
    match t
    case TBool | TInt8 | TUInt8 => 1
    case TInt16 | TUInt16 => 2
    case TSigned32(_) | TUnsigned32(_) | TFloat => 4
    case TInt64 | TUnsigned64(_) | TDouble => 8
  }

  /** The unsigned number a field of fixed width is stored as. */
  function Stored(v: Value): (n: nat)
    requires !v.Str?
  {
    match v
    case Bool(x) => if x then 1 else 0
    case Int8(x) => EncodeI8(x)
    case UInt8(x) => x
    case Int16(x) => EncodeI16(x)
    case UInt16(x) => x
    case Signed32(_, x) => EncodeI32(x)
    case Unsigned32(_, x) => x
    case Int64(x) => EncodeI64(x)
    case Unsigned64(_, x) => x
    case Float(x) => EncodeF32(x)
    case Double(x) => EncodeF64(x)
  }

  /** The bytes a value adds to a key. */
  function Encode(v: Value): seq<u8> {
    if v.Str? then v.s + [0] else BigEndian(Width(TypeOf(v)), Stored(v))
  }

  function EncodeAll(vs: seq<Value>): seq<u8> {
    if vs == [] then [] else Encode(vs[0]) + EncodeAll(vs[1..])
  }

  function TypesOf(vs: seq<Value>): (ts: seq<Type>)
    ensures |ts| == |vs| && forall i :: 0 <= i < |vs| ==> ts[i] == TypeOf(vs[i])
  {
    if vs == [] then [] else [TypeOf(vs[0])] + TypesOf(vs[1..])
  }

  /** Field by field, the first difference decides. */
  function CompareLists(a: seq<Value>, b: seq<Value>): int
    requires TypesOf(a) == TypesOf(b)
  {
    if a == [] then 0
    else if CompareValues(a[0], b[0]) != 0 then CompareValues(a[0], b[0])
    else
      assert TypesOf(a)[1..] == TypesOf(b)[1..];
      CompareLists(a[1..], b[1..])
  }

  predicate IsNumber(v: Value) {
    (v.Float? ==> !IsNaN(v.f32, SIGN_32, INFINITY_32)) && (v.Double? ==> !IsNaN(v.f64, SIGN_64, INFINITY_64))
  }

  predicate NulFree(v: Value) {
    v.Str? ==> 0 !in v.s
  }

  // ----- Order of one field

  lemma StoredFits(v: Value)
    requires !v.Str?
    ensures Stored(v) < Pow256(Width(TypeOf(v)))
  {
    Powers();
  }

  lemma Powers()
    ensures Pow256(1) == 0x100 && Pow256(2) == 0x1_0000 && Pow256(4) == 0x1_0000_0000
    ensures Pow256(8) == 0x1_0000_0000_0000_0000
  {
  }

  /** Stored numbers are in the order of the values. */
  lemma StoredOrder(a: Value, b: Value)
    requires TypeOf(a) == TypeOf(b) && !a.Str? && IsNumber(a) && IsNumber(b)
    ensures Order(Stored(a), Stored(b)) == CompareValues(a, b)
  {
    match a
    case Int8(x) => SignedEncoding(x, SIGN_08); SignedEncoding(b.i8, SIGN_08);
    case Int16(x) => SignedEncoding(x, SIGN_16); SignedEncoding(b.i16, SIGN_16);
    case Signed32(_, x) => SignedEncoding(x, SIGN_32); SignedEncoding(b.i32, SIGN_32);
    case Int64(x) => SignedEncoding(x, SIGN_64); SignedEncoding(b.i64, SIGN_64);
    case Float(x) => FloatOrder(x, b.f32, SIGN_32, INFINITY_32);
    case Double(x) => FloatOrder(x, b.f64, SIGN_64, INFINITY_64);
    case _ =>
  }

  /** A field of fixed width compares, byte by byte, as its value does. */
  lemma FixedFieldOrder(a: Value, b: Value)
    requires TypeOf(a) == TypeOf(b) && !a.Str? && IsNumber(a) && IsNumber(b)
    ensures |Encode(a)| == |Encode(b)|
    ensures Compare(Encode(a), Encode(b)) == CompareValues(a, b)
  {
    StoredFits(a);
    StoredFits(b);
    BigEndianOrder(Width(TypeOf(a)), Stored(a), Stored(b));
    StoredOrder(a, b);
  }

  /** The longer string goes on with a NUL where the shorter ends. */
  predicate NulExtends(a: seq<u8>, b: seq<u8>) {
    |a| < |b| && a == b[..|a|] && b[|a|] == 0
  }

  /** Terminated strings compare as the strings do, whatever follows them, unless one extends the
      other by a NUL. */
  lemma {:induction false} StringFieldOrder(a: seq<u8>, b: seq<u8>, x: seq<u8>, y: seq<u8>)
    requires !NulExtends(a, b) && !NulExtends(b, a)
    ensures Compare(a + [0] + x, b + [0] + y) == if Compare(a, b) != 0 then Compare(a, b) else Compare(x, y)
    decreases |a|
  {
    var l, r := a + [0] + x, b + [0] + y;
    if a == [] {
      assert l == [0] + x;
      assert l[1..] == x;
      if b == [] {
        assert r == [0] + y;
        assert r[1..] == y;
      } else {
        assert r[0] == b[0] && b[..0] == [];
      }
    } else if b == [] {
      assert r == [0] + y;
      assert l[0] == a[0] && a[..0] == [];
    } else {
      assert l[0] == a[0] && r[0] == b[0];
      assert l[1..] == a[1..] + [0] + x && r[1..] == b[1..] + [0] + y;
      if a[0] == b[0] {
        assert forall k :: 1 <= k <= |b| ==> b[..k] == [b[0]] + b[1..][..k - 1];
        assert forall k :: 1 <= k <= |a| ==> a[..k] == [a[0]] + a[1..][..k - 1];
        assert a == [a[0]] + a[1..] && b == [b[0]] + b[1..];
        StringFieldOrder(a[1..], b[1..], x, y);
      }
    }
  }

  /** At the end of a key a string may hold NULs. */
  lemma {:induction false} LastStringOrder(a: seq<u8>, b: seq<u8>)
    ensures Compare(a + [0], b + [0]) == Compare(a, b)
    decreases |a|
  {
    var l, r := a + [0], b + [0];
    if a != [] && b != [] {
      assert l[1..] == a[1..] + [0] && r[1..] == b[1..] + [0];
      LastStringOrder(a[1..], b[1..]);
    } else if a == [] && b != [] {
      assert l[1..] == [] && r[1..] == b[1..] + [0];
    } else if b == [] && a != [] {
      assert r[1..] == [] && l[1..] == a[1..] + [0];
    } else {
      CompareSelf(l);
    }
  }

  // ----- Order of whole keys

  /** Neither string extends the other by a NUL. */
  predicate Apart(a: Value, b: Value) {
    a.Str? && b.Str? ==> !NulExtends(a.s, b.s) && !NulExtends(b.s, a.s)
  }

  lemma FieldOrder(a: Value, b: Value, x: seq<u8>, y: seq<u8>)
    requires TypeOf(a) == TypeOf(b) && IsNumber(a) && IsNumber(b) && Apart(a, b)
    ensures Compare(Encode(a) + x, Encode(b) + y) ==
            if CompareValues(a, b) != 0 then CompareValues(a, b) else Compare(x, y)
  {
    if a.Str? {
      StringFieldOrder(a.s, b.s, x, y);
    } else {
      FixedFieldOrder(a, b);
      CompareFront(Encode(a), Encode(b), x, y);
    }
  }

  lemma LastFieldOrder(a: Value, b: Value)
    requires TypeOf(a) == TypeOf(b) && IsNumber(a) && IsNumber(b)
    ensures Compare(Encode(a), Encode(b)) == CompareValues(a, b)
  {
    if a.Str? {
      LastStringOrder(a.s, b.s);
    } else {
      FixedFieldOrder(a, b);
    }
  }

  /** Up to the first difference, floats are numbers, and no string but the last field extends its
      counterpart by a NUL. */
  predicate Comparable(a: seq<Value>, b: seq<Value>)
    requires TypesOf(a) == TypesOf(b)
  {
    assert |a| == |b|;
    a != [] ==>
      assert TypesOf(a)[0] == TypesOf(b)[0] && TypesOf(a)[1..] == TypesOf(b)[1..];
      && IsNumber(a[0]) && IsNumber(b[0]) && (|a| > 1 ==> Apart(a[0], b[0]))
      && (CompareValues(a[0], b[0]) == 0 ==> Comparable(a[1..], b[1..]))
  }

  lemma EncodeOne(v: Value)
    ensures EncodeAll([v]) == Encode(v)
  {
    hide Encode;
    assert [v][1..] == [];
    assert Encode(v) + [] == Encode(v);
  }

  /** Byte order of composite keys is field-by-field value order, for any number of fields of any
      types, with strings anywhere among them. */
  lemma {:induction false} KeyOrderIsValueOrder(a: seq<Value>, b: seq<Value>)
    requires TypesOf(a) == TypesOf(b) && Comparable(a, b)
    ensures Compare(EncodeAll(a), EncodeAll(b)) == CompareLists(a, b)
    decreases |a|
  {
    assert |a| == |b|;
    if a != [] {
      assert TypesOf(a)[0] == TypesOf(b)[0] && TypesOf(a)[1..] == TypesOf(b)[1..];
      hide Encode, CompareValues, IsNumber, Apart;
      if |a| == 1 {
        LastFieldOrder(a[0], b[0]);
        EncodeOne(a[0]);
        EncodeOne(b[0]);
        assert a == [a[0]] && b == [b[0]];
      } else {
        FieldOrder(a[0], b[0], EncodeAll(a[1..]), EncodeAll(b[1..]));
        if CompareValues(a[0], b[0]) == 0 {
          KeyOrderIsValueOrder(a[1..], b[1..]);
        }
      }
    }
  }

  /** Keys whose inner strings hold no NUL, and whose floats are numbers, are comparable with all
      others like them. */
  lemma {:induction false} NulFreeIsComparable(a: seq<Value>, b: seq<Value>)
    requires TypesOf(a) == TypesOf(b)
    requires forall i :: 0 <= i < |a| ==> IsNumber(a[i]) && (i < |a| - 1 ==> NulFree(a[i]))
    requires forall i :: 0 <= i < |b| ==> IsNumber(b[i]) && (i < |b| - 1 ==> NulFree(b[i]))
    ensures Comparable(a, b)
    decreases |a|
  {
    assert |a| == |b|;
    if a != [] {
      assert TypesOf(a)[0] == TypesOf(b)[0] && TypesOf(a)[1..] == TypesOf(b)[1..];
      if |a| > 1 {
        NulFreeIsApart(a[0], b[0]);
      }
      NulFreeIsComparable(a[1..], b[1..]);
    }
  }

  lemma NulFreeIsApart(a: Value, b: Value)
    requires NulFree(a) && NulFree(b)
    ensures Apart(a, b)
  {
    if a.Str? && b.Str? {
      assert forall k :: 0 <= k < |a.s| ==> a.s[k] in a.s;
      assert forall k :: 0 <= k < |b.s| ==> b.s[k] in b.s;
    }
  }

  /** The condition on strings is exact: if b extends a by a NUL, two keys of two strings sort against
      their values. */
  lemma NulExtensionBreaksOrder(a: seq<u8>, b: seq<u8>)
    requires NulExtends(a, b)
    ensures var x, y := [Str(a), Str(b[|a| + 1..] + [1])], [Str(b), Str([])];
            && TypesOf(x) == TypesOf(y)
            && CompareLists(x, y) == -1 && Compare(EncodeAll(x), EncodeAll(y)) == 1
            && CompareLists(y, x) == 1 && Compare(EncodeAll(y), EncodeAll(x)) == -1
  {
    var rest := b[|a| + 1..];
    var front := a + [0] + rest;
    ExtensionIsLarger(a, b);
    EncodePair(Str(a), Str(rest + [1]));
    EncodePair(Str(b), Str([]));
    assert a + [0] + (rest + [1] + [0]) == front + [1, 0];
    assert b + [0] + ([] + [0]) == front + [0, 0];
    EndsDiffer(front);
  }

  lemma ExtensionIsLarger(a: seq<u8>, b: seq<u8>)
    requires NulExtends(a, b)
    ensures Compare(a, b) == -1 && Compare(b, a) == 1
  {
    assert a == a + [] && b == a + b[|a|..];
    CompareSelf(a);
    CompareFront(a, a, [], b[|a|..]);
    CompareFront(a, a, b[|a|..], []);
  }

  lemma EndsDiffer(front: seq<u8>)
    ensures Compare(front + [1, 0], front + [0, 0]) == 1 && Compare(front + [0, 0], front + [1, 0]) == -1
  {
    CompareSelf(front);
    CompareFront(front, front, [1, 0], [0, 0]);
    CompareFront(front, front, [0, 0], [1, 0]);
    assert Compare([1, 0], [0, 0]) == 1 && Compare([0, 0], [1, 0]) == -1;
  }

  lemma EncodePair(v: Value, w: Value)
    ensures EncodeAll([v, w]) == Encode(v) + Encode(w)
  {
    hide Encode;
    assert [v, w][1..] == [w] && [w][1..] == [];
    assert EncodeAll([w]) == Encode(w);
  }

  lemma FollowedStrings(a: seq<u8>, b: seq<u8>, xs: seq<Value>, ys: seq<Value>)
    requires TypesOf(xs) == TypesOf(ys) && Comparable(xs, ys) && Apart(Str(a), Str(b))
    ensures TypesOf([Str(a)] + xs) == TypesOf([Str(b)] + ys)
    ensures Compare(EncodeAll([Str(a)] + xs), EncodeAll([Str(b)] + ys)) == CompareLists([Str(a)] + xs, [Str(b)] + ys)
  {
    var x, y := [Str(a)] + xs, [Str(b)] + ys;
    assert x[1..] == xs && y[1..] == ys;
    KeyOrderIsValueOrder(x, y);
  }

  /** Sorting as the values do, for keys that begin with two strings. */
  ghost predicate Sorts(a: seq<u8>, b: seq<u8>, xs: seq<Value>, ys: seq<Value>) {
    var x, y := [Str(a)] + xs, [Str(b)] + ys;
    TypesOf(x) == TypesOf(y) && Compare(EncodeAll(x), EncodeAll(y)) == CompareLists(x, y)
  }

  /** Keys that begin with two given strings sort as their values whatever comparable fields follow,
      exactly when neither string extends the other by a NUL. */
  lemma InnerStringsIff(a: seq<u8>, b: seq<u8>)
    ensures Apart(Str(a), Str(b)) <==>
            forall xs, ys :: TypesOf(xs) == TypesOf(ys) && Comparable(xs, ys) ==> Sorts(a, b, xs, ys)
  {
    if Apart(Str(a), Str(b)) {
      forall xs, ys | TypesOf(xs) == TypesOf(ys) && Comparable(xs, ys) ensures Sorts(a, b, xs, ys) {
        FollowedStrings(a, b, xs, ys);
      }
    } else if NulExtends(a, b) {
      var xs, ys := [Str(b[|a| + 1..] + [1])], [Str([])];
      NulExtensionBreaksOrder(a, b);
      LoneStrings(xs[0].s, []);
      assert [Str(a)] + xs == [Str(a), xs[0]] && [Str(b)] + ys == [Str(b), ys[0]];
      assert !Sorts(a, b, xs, ys);
    } else {
      var xs, ys := [Str([])], [Str(a[|b| + 1..] + [1])];
      NulExtensionBreaksOrder(b, a);
      LoneStrings([], ys[0].s);
      assert [Str(a)] + xs == [Str(a), xs[0]] && [Str(b)] + ys == [Str(b), ys[0]];
      assert !Sorts(a, b, xs, ys);
    }
  }

  lemma LoneStrings(a: seq<u8>, b: seq<u8>)
    ensures TypesOf([Str(a)]) == TypesOf([Str(b)]) && Comparable([Str(a)], [Str(b)])
  {
    assert [Str(a)][1..] == [] && [Str(b)][1..] == [];
  }

  // ----- Reading fields back

  /** Index of the first NUL at or after pos, or the length if there is none. */
  function NulAt(data: seq<u8>, pos: nat): (i: nat)
    requires pos <= |data|
    ensures pos <= i <= |data|
    ensures forall k :: pos <= k < i ==> data[k] != 0
    ensures i < |data| ==> data[i] == 0
    decreases |data| - pos
  {
    if pos == |data| || data[pos] == 0 then pos else NulAt(data, pos + 1)
  }

  /** The value stored as the number n. */
  function Recover(t: Type, n: nat): (v: Value)
    requires !t.TString? && n < Pow256(Width(t))
    ensures TypeOf(v) == t
  {
    Powers();
    match t
    case TBool => Bool(n != 0)
    case TInt8 => Int8(DecodeI8(n))
    case TUInt8 => UInt8(n)
    case TInt16 => Int16(DecodeI16(n))
    case TUInt16 => UInt16(n)
    case TSigned32(k) => Signed32(k, DecodeI32(n))
    case TUnsigned32(k) => Unsigned32(k, n)
    case TInt64 => Int64(DecodeI64(n))
    case TUnsigned64(k) => Unsigned64(k, n)
    case TFloat => Float(DecodeF32(n))
    case TDouble => Double(DecodeF64(n))
  }

  /** The value in the bytes of one field. */
  function Extract(t: Type, f: seq<u8>): (v: Value)
    requires !t.TString? && |f| == Width(t)
    ensures TypeOf(v) == t
  {
    BigEndianOfNumber(f);
    Recover(t, Number(f))
  }

  /** Unterminated: extract_string would read past the end of the key. */
  datatype Decoded<+T> = Fields(value: T, pos: nat) | OutOfBound | Unterminated

  /** decode_field */
  function DecodeField(t: Type, data: seq<u8>, pos: nat): (r: Decoded<Value>)
    ensures r.Fields? ==> r.pos <= |data|
  {
    if t.TString? then
      if pos >= |data| then OutOfBound
      else
        var i := NulAt(data, pos);
        if i == |data| then Unterminated else Fields(Str(data[pos..i]), i + 1)
    else if pos + Width(t) > |data| then OutOfBound
    else Fields(Extract(t, data[pos..pos + Width(t)]), pos + Width(t))
  }

  function DecodeAll(types: seq<Type>, data: seq<u8>, pos: nat): Decoded<seq<Value>>
    decreases |types|
  {
    if types == [] then Fields([], pos)
    else match DecodeField(types[0], data, pos)
      case OutOfBound => OutOfBound
      case Unterminated => Unterminated
      case Fields(v, p) =>
        match DecodeAll(types[1..], data, p)
        case OutOfBound => OutOfBound
        case Unterminated => Unterminated
        case Fields(vs, q) => Fields([v] + vs, q)
  }

  /** What a field decodes to: itself, but for the float patterns that encoding merges. */
  function Canonical(v: Value): Value {
    match v
    case Float(x) => Float(DecodeF32(EncodeF32(x)))
    case Double(x) => Double(DecodeF64(EncodeF64(x)))
    case _ => v
  }

  function CanonicalAll(vs: seq<Value>): seq<Value> {
    if vs == [] then [] else [Canonical(vs[0])] + CanonicalAll(vs[1..])
  }

  /** Exactly negative zeros and NaNs without sign bit do not decode to themselves. */
  lemma CanonicalIsFaithful(v: Value)
    ensures Canonical(v) == v <==>
            && (v.Float? ==> v.f32 != SIGN_32 && !(INFINITY_32 < v.f32 < SIGN_32))
            && (v.Double? ==> v.f64 != SIGN_64 && !(INFINITY_64 < v.f64 < SIGN_64))
  {
    hide EncodeFloat, DecodeFloat;
    match v
    case Float(x) =>
      FloatRoundTrip(x, SIGN_32, INFINITY_32);
      MaskRemainder(x, SIGN_32);
    case Double(x) =>
      FloatRoundTrip(x, SIGN_64, INFINITY_64);
      MaskRemainder(x, SIGN_64);
    case _ =>
  }

  lemma RecoverStored(v: Value)
    requires !v.Str?
    ensures Stored(v) < Pow256(Width(TypeOf(v))) && Recover(TypeOf(v), Stored(v)) == Canonical(v)
  {
    StoredFits(v);
    match v
    case Int8(x) => SignedEncoding(x, SIGN_08);
    case Int16(x) => SignedEncoding(x, SIGN_16);
    case Signed32(_, x) => SignedEncoding(x, SIGN_32);
    case Int64(x) => SignedEncoding(x, SIGN_64);
    case _ =>
  }

  lemma ExtractUndoesEncode(v: Value)
    requires !v.Str?
    ensures |Encode(v)| == Width(TypeOf(v))
    ensures Extract(TypeOf(v), Encode(v)) == Canonical(v)
  {
    RecoverStored(v);
    NumberOfBigEndian(Width(TypeOf(v)), Stored(v));
  }

  /** `part` lies in `data` at `pos`. */
  predicate At(data: seq<u8>, pos: nat, part: seq<u8>) {
    pos + |part| <= |data| && data[pos..pos + |part|] == part
  }

  lemma AtSplit(data: seq<u8>, pos: nat, a: seq<u8>, b: seq<u8>)
    requires At(data, pos, a + b)
    ensures At(data, pos, a) && At(data, pos + |a|, b)
  {
    var whole := data[pos..pos + |a + b|];
    assert data[pos..pos + |a|] == whole[..|a|] == a;
    assert data[pos + |a|..pos + |a| + |b|] == whole[|a|..] == b;
  }

  lemma FixedFieldAt(t: Type, f: seq<u8>, data: seq<u8>, pos: nat)
    requires !t.TString? && |f| == Width(t) && At(data, pos, f)
    ensures DecodeField(t, data, pos) == Fields(Extract(t, f), pos + |f|)
  {
    hide Extract, Width;
  }

  lemma TerminatedAt(f: seq<u8>, data: seq<u8>, pos: nat)
    requires 0 !in f && At(data, pos, f + [0])
    ensures DecodeField(TString, data, pos) == Fields(Str(f), pos + |f| + 1)
  {
    hide Extract, Width;
    StringEndsAt(f, data, pos);
  }

  /** A field decodes at its offset, whatever surrounds it. */
  lemma DecodeFieldAt(v: Value, data: seq<u8>, pos: nat)
    requires NulFree(v) && At(data, pos, Encode(v))
    ensures DecodeField(TypeOf(v), data, pos) == Fields(Canonical(v), pos + |Encode(v)|)
  {
    hide DecodeField, At, Extract;
    if v.Str? {
      TerminatedAt(v.s, data, pos);
    } else {
      ExtractUndoesEncode(v);
      FixedFieldAt(TypeOf(v), Encode(v), data, pos);
    }
  }

  lemma StringEndsAt(s: seq<u8>, data: seq<u8>, pos: nat)
    requires 0 !in s && At(data, pos, s + [0])
    ensures NulAt(data, pos) == pos + |s| && data[pos..pos + |s|] == s
  {
    AtSplit(data, pos, s, [0]);
    var i := NulAt(data, pos);
    assert data[pos + |s|] == data[pos + |s|..pos + |s| + 1][0] == 0;
    forall k | pos <= k < pos + |s| ensures data[k] != 0 {
      assert data[k] == data[pos..pos + |s|][k - pos] && s[k - pos] in s;
    }
  }

  lemma {:induction false} DecodeAllAt(vs: seq<Value>, data: seq<u8>, pos: nat)
    requires forall i :: 0 <= i < |vs| ==> NulFree(vs[i])
    requires At(data, pos, EncodeAll(vs))
    ensures DecodeAll(TypesOf(vs), data, pos) == Fields(CanonicalAll(vs), pos + |EncodeAll(vs)|)
    decreases |vs|
  {
    hide Encode, DecodeField, SkipField, TypeOf, Canonical;
    if vs != [] {
      AtSplit(data, pos, Encode(vs[0]), EncodeAll(vs[1..]));
      TypesOfTail(vs);
      DecodeFieldAt(vs[0], data, pos);
      DecodeAllAt(vs[1..], data, pos + |Encode(vs[0])|);
    }
  }

  lemma TypesOfTail(vs: seq<Value>)
    requires vs != []
    ensures TypesOf(vs)[0] == TypeOf(vs[0]) && TypesOf(vs)[1..] == TypesOf(vs[1..])
  {
  }

  /** A string with a NUL comes back cut off. */
  lemma NulCutsString(s: seq<u8>, data: seq<u8>, pos: nat)
    requires 0 in s
    ensures DecodeField(TString, data, pos).Fields? ==> DecodeField(TString, data, pos).value != Str(s)
  {
    if pos < |data| {
      var i := NulAt(data, pos);
      assert forall k :: 0 <= k < i - pos ==> data[pos..i][k] == data[pos + k];
    }
  }

  lemma FirstDecoded(types: seq<Type>, data: seq<u8>, pos: nat)
    requires types != [] && DecodeAll(types, data, pos).Fields?
    ensures var r, f := DecodeAll(types, data, pos), DecodeField(types[0], data, pos);
            && f.Fields? && r.value != [] && r.value[0] == f.value
            && DecodeAll(types[1..], data, f.pos).Fields?
            && r.value[1..] == DecodeAll(types[1..], data, f.pos).value
  {
    hide DecodeField;
  }

  lemma FirstCanonical(vs: seq<Value>)
    requires vs != []
    ensures CanonicalAll(vs)[0] == Canonical(vs[0]) && CanonicalAll(vs)[1..] == CanonicalAll(vs[1..])
  {
    hide Canonical;
  }

  lemma NulLosesFirst(vs: seq<Value>, data: seq<u8>, pos: nat)
    requires vs != [] && !NulFree(vs[0])
    ensures var r := DecodeAll(TypesOf(vs), data, pos); r.Fields? ==> r.value != CanonicalAll(vs)
  {
    hide DecodeAll, DecodeField, CanonicalAll, TypesOf;
    if DecodeAll(TypesOf(vs), data, pos).Fields? {
      TypesOfTail(vs);
      FirstDecoded(TypesOf(vs), data, pos);
      FirstCanonical(vs);
      NulCutsString(vs[0].s, data, pos);
    }
  }

  lemma {:induction false} NulLosesValues(vs: seq<Value>, data: seq<u8>, pos: nat, j: nat)
    requires At(data, pos, EncodeAll(vs)) && j < |vs| && !NulFree(vs[j])
    ensures var r := DecodeAll(TypesOf(vs), data, pos); r.Fields? ==> r.value != CanonicalAll(vs)
    decreases |vs|
  {
    hide At, Encode, DecodeAll, DecodeField, Canonical, CanonicalAll, TypeOf, TypesOf, NulFree;
    if !NulFree(vs[0]) {
      NulLosesFirst(vs, data, pos);
    } else if DecodeAll(TypesOf(vs), data, pos).Fields? {
      AtSplit(data, pos, Encode(vs[0]), EncodeAll(vs[1..]));
      TypesOfTail(vs);
      FirstDecoded(TypesOf(vs), data, pos);
      FirstCanonical(vs);
      DecodeFieldAt(vs[0], data, pos);
      NulLosesValues(vs[1..], data, pos + |Encode(vs[0])|, j - 1);
    }
  }

  /** Decoding a composite key field by field recovers every value, and then ends at its length, if and
      only if no string of it holds a NUL. */
  lemma DecodeRecoversKey(vs: seq<Value>)
    ensures var r, clean := DecodeAll(TypesOf(vs), EncodeAll(vs), 0), forall i :: 0 <= i < |vs| ==> NulFree(vs[i]);
            && (r.Fields? && r.value == CanonicalAll(vs) <==> clean)
            && (clean ==> r.pos == |EncodeAll(vs)|)
  {
    hide DecodeAll, EncodeAll, CanonicalAll, NulFree;
    assert EncodeAll(vs)[0..|EncodeAll(vs)|] == EncodeAll(vs);
    if forall i :: 0 <= i < |vs| ==> NulFree(vs[i]) {
      DecodeAllAt(vs, EncodeAll(vs), 0);
    } else {
      var j :| 0 <= j < |vs| && !NulFree(vs[j]);
      NulLosesValues(vs, EncodeAll(vs), 0, j);
    }
  }

  // ----- The partition column

  /** get_partition_col_pos for one type: the position behind the field at pos, or -1. */
  function SkipField(t: Type, data: seq<u8>, pos: nat): Decoded<()> {
    if t.TString? then
      if pos >= |data| then OutOfBound
      else if NulAt(data, pos) == |data| then Unterminated
      else Fields((), NulAt(data, pos) + 1)
    else if pos + Width(t) > |data| then OutOfBound
    else Fields((), pos + Width(t))
  }

  /** Skipping a field lands where decoding it does, and fails where it does. */
  lemma SkipAgreesWithDecode(t: Type, data: seq<u8>, pos: nat)
    ensures match DecodeField(t, data, pos)
            case Fields(_, p) => SkipField(t, data, pos) == Fields((), p)
            case OutOfBound => SkipField(t, data, pos) == OutOfBound
            case Unterminated => SkipField(t, data, pos) == Unterminated
  {
  }

  function SkipFields(types: seq<Type>, data: seq<u8>, pos: nat): Decoded<()>
    decreases |types|
  {
    if types == [] then Fields((), pos)
    else match SkipField(types[0], data, pos)
      case Fields(_, p) => SkipFields(types[1..], data, p)
      case OutOfBound => OutOfBound
      case Unterminated => Unterminated
  }

  lemma {:induction false} SkipFieldsAt(vs: seq<Value>, data: seq<u8>, pos: nat)
    requires forall i :: 0 <= i < |vs| ==> NulFree(vs[i])
    requires At(data, pos, EncodeAll(vs))
    ensures SkipFields(TypesOf(vs), data, pos) == Fields((), pos + |EncodeAll(vs)|)
    decreases |vs|
  {
    hide Encode, DecodeField, SkipField, TypeOf, Canonical;
    if vs != [] {
      AtSplit(data, pos, Encode(vs[0]), EncodeAll(vs[1..]));
      TypesOfTail(vs);
      DecodeFieldAt(vs[0], data, pos);
      SkipAgreesWithDecode(TypeOf(vs[0]), data, pos);
      SkipFieldsAt(vs[1..], data, pos + |Encode(vs[0])|);
    }
  }

  lemma {:induction false} EncodeAllSplit(vs: seq<Value>, k: nat)
    requires k <= |vs|
    ensures EncodeAll(vs) == EncodeAll(vs[..k]) + EncodeAll(vs[k..])
  {
    if k == 0 {
      assert vs[..0] == [] && vs[0..] == vs;
    } else {
      EncodeAllSplit(vs[1..], k - 1);
      assert vs[..k][1..] == vs[1..][..k - 1] && vs[k..] == vs[1..][k - 1..];
      Associate(Encode(vs[0]), EncodeAll(vs[1..][..k - 1]), EncodeAll(vs[k..]));
    }
  }

  lemma Associate(a: seq<u8>, b: seq<u8>, c: seq<u8>)
    ensures a + (b + c) == a + b + c
  {
  }

  /** Appending to the key of a list of values gives the key of the longer list. */
  lemma EncodeAllAppend(vs: seq<Value>, v: Value)
    ensures EncodeAll(vs + [v]) == EncodeAll(vs) + Encode(v)
  {
    hide Encode;
    EncodeAllSplit(vs + [v], |vs|);
    assert (vs + [v])[..|vs|] == vs && (vs + [v])[|vs|..] == [v];
    assert [v][1..] == [];
  }

  /** std::string::replace of `bytes` over the bytes at pos. */
  function Replaced(data: seq<u8>, pos: nat, bytes: seq<u8>): seq<u8>
    requires pos <= |data|
  {
    data[..pos] + bytes + if pos + |bytes| <= |data| then data[pos + |bytes|..] else []
  }

  /** replace_partition_col touches dates and datetimes only. */
  predicate IsPartitionValue(v: Value) {
    (v.Unsigned32? && v.ku == Date) || (v.Unsigned64? && v.kl == DateTime)
  }

  lemma EncodeAround(vs: seq<Value>, k: nat)
    requires k < |vs|
    ensures EncodeAll(vs) == EncodeAll(vs[..k]) + Encode(vs[k]) + EncodeAll(vs[k + 1..])
  {
    EncodeAllSplit(vs, k);
    assert vs[k..][1..] == vs[k + 1..];
    Associate(EncodeAll(vs[..k]), Encode(vs[k]), EncodeAll(vs[k + 1..]));
  }

  /** The position that skipping finds for a column is the column's offset. */
  lemma FoundColumn(vs: seq<Value>, k: nat)
    requires k < |vs| && forall i :: 0 <= i < |vs| ==> NulFree(vs[i])
    ensures SkipFields(TypesOf(vs)[..k], EncodeAll(vs), 0) == Fields((), |EncodeAll(vs[..k])|)
  {
    hide EncodeAll, SkipFields, NulFree, TypesOf;
    EncodeAllSplit(vs, k);
    var key, front := EncodeAll(vs), EncodeAll(vs[..k]);
    assert key[0..0 + |front|] == front;
    TypesOfFront(vs, k);
    SkipFieldsAt(vs[..k], key, 0);
  }

  lemma TypesOfFront(vs: seq<Value>, k: nat)
    requires k <= |vs|
    ensures TypesOf(vs)[..k] == TypesOf(vs[..k])
  {
  }

  lemma ReplaceMiddle(pre: seq<u8>, e: seq<u8>, post: seq<u8>, f: seq<u8>)
    requires |e| == |f|
    ensures Replaced(pre + e + post, |pre|, f) == pre + f + post
  {
  }

  /** Replacing a date or datetime column at the position found for it gives the key of the
      values with just that column replaced: it decodes to the new value there and to every old
      value elsewhere. */
  lemma ReplacedColumn(vs: seq<Value>, k: nat, v: Value)
    requires k < |vs| && IsPartitionValue(v) && TypeOf(vs[k]) == TypeOf(v)
    requires forall i :: 0 <= i < |vs| ==> NulFree(vs[i])
    ensures var found := SkipFields(TypesOf(vs)[..k], EncodeAll(vs), 0);
            && found.Fields? && found.pos <= |EncodeAll(vs)|
            && Replaced(EncodeAll(vs), found.pos, Encode(v)) == EncodeAll(vs[k := v])
    ensures DecodeAll(TypesOf(vs), EncodeAll(vs[k := v]), 0)
            == Fields(CanonicalAll(vs[k := v]), |EncodeAll(vs)|)
  {
    hide EncodeAll, Encode, SkipFields, DecodeAll, CanonicalAll, Replaced, TypesOf;
    FoundColumn(vs, k);
    ReplacedBytes(vs, k, v);
    SameTypes(vs, k, v);
    DecodeRecoversKey(vs[k := v]);
  }

  lemma SameTypes(vs: seq<Value>, k: nat, v: Value)
    requires k < |vs| && TypeOf(vs[k]) == TypeOf(v)
    ensures TypesOf(vs[k := v]) == TypesOf(vs)
  {
  }

  lemma ReplacedBytes(vs: seq<Value>, k: nat, v: Value)
    requires k < |vs| && !v.Str? && TypeOf(vs[k]) == TypeOf(v)
    ensures |EncodeAll(vs[..k])| <= |EncodeAll(vs)| == |EncodeAll(vs[k := v])|
    ensures Replaced(EncodeAll(vs), |EncodeAll(vs[..k])|, Encode(v)) == EncodeAll(vs[k := v])
  {
    hide Encode, Extract, Canonical;
    var ws := vs[k := v];
    EncodeAround(vs, k);
    EncodeAround(ws, k);
    assert ws[..k] == vs[..k] && ws[k + 1..] == vs[k + 1..];
    ExtractUndoesEncode(vs[k]);
    ExtractUndoesEncode(v);
    ReplaceMiddle(EncodeAll(vs[..k]), Encode(vs[k]), EncodeAll(vs[k + 1..]), Encode(v));
  }

  // ----- On a host of either endianness

  /** What append_value writes on a host that is big-endian or not. */
  function EncodeOn(big: bool, v: Value): seq<u8> {
    match v
    case Bool(x) => [if x then 1 else 0]
    case Int8(x) => [EncodeI8(x)]
    case UInt8(x) => [x]
    case Int16(x) => Store16(big, ToEndian16(big, EncodeI16(x)))
    case UInt16(x) => Store16(big, ToEndian16(big, x))
    case Signed32(_, x) => Store32(big, ToEndian32(big, EncodeI32(x)))
    case Unsigned32(_, x) => Store32(big, ToEndian32(big, x))
    case Int64(x) => Store64(big, ToEndian64(big, EncodeI64(x)))
    case Unsigned64(_, x) => Store64(big, ToEndian64(big, x))
    case Float(x) => Store32(big, ToEndian32(big, EncodeF32(x)))
    case Double(x) => Store64(big, ToEndian64(big, EncodeF64(x)))
    case Str(x) => x + [0]
  }

  /** Every host writes the same bytes. */
  lemma EncodeOnAnyHost(big: bool, v: Value)
    ensures EncodeOn(big, v) == Encode(v)
  {
    hide Store16, Store32, Store64, ToEndian16, ToEndian32, ToEndian64;
    hide EncodeI8, EncodeI16, EncodeI32, EncodeI64, EncodeF32, EncodeF64;
    if !v.Str? {
      match Width(TypeOf(v))
      case 2 => StoredIsBig16(big, Stored(v)); BigEndianOfWidth2(Stored(v));
      case 4 => StoredIsBig32(big, Stored(v)); BigEndianOfWidth4(Stored(v));
      case 8 => StoredIsBig64(big, Stored(v)); BigEndianOfWidth8(Stored(v));
      case _ =>
    }
  }

  /** The extract_ functions on a host that is big-endian or not. */
  function LoadOn(big: bool, f: seq<u8>): nat
    requires |f| == 1 || |f| == 2 || |f| == 4 || |f| == 8
  {
    if |f| == 1 then f[0]
    else if |f| == 2 then ToEndian16(big, Load16(big, f))
    else if |f| == 4 then ToEndian32(big, Load32(big, f))
    else ToEndian64(big, Load64(big, f))
  }

  /** Every host reads the same number. */
  lemma LoadOnAnyHost(big: bool, f: seq<u8>)
    requires |f| == 1 || |f| == 2 || |f| == 4 || |f| == 8
    ensures LoadOn(big, f) == Number(f)
  {
    BigEndianOfNumber(f);
    Powers();
    var n := Number(f);
    if |f| == 1 {
      assert f[..0] == [];
    } else if |f| == 2 {
      BigEndianOfWidth2(n);
      LoadedIsNumber16(big, n);
    } else if |f| == 4 {
      BigEndianOfWidth4(n);
      LoadedIsNumber32(big, n);
    } else {
      BigEndianOfWidth8(n);
      LoadedIsNumber64(big, n);
    }
  }

  lemma PartitionBytes(big: bool, v: Value)
    requires IsPartitionValue(v)
    ensures Encode(v) == if v.Unsigned32? then Store32(big, ToEndian32(big, v.u32))
                         else Store64(big, ToEndian64(big, v.u64))
  {
    hide Encode, Store32, Store64, ToEndian32, ToEndian64;
    EncodeOnAnyHost(big, v);
  }

  // ----- The objects

  /** A key under construction. */
  class MutTableKey {
    const big: bool
    var data: seq<u8>

    constructor (big: bool)
      ensures data == [] && this.big == big
    {
      this.big := big;
      data := [];
    }

    /** What append_value appends. */
    method BytesOf(v: Value) returns (bytes: seq<u8>)
      ensures bytes == Encode(v)
    {
      EncodeOnAnyHost(big, v);
      hide Encode, Store16, Store32, Store64, ToEndian16, ToEndian32, ToEndian64;
      hide EncodeI8, EncodeI16, EncodeI32, EncodeI64, EncodeF32, EncodeF64;
      match v {
        case Bool(x) => bytes := [if x then 1 else 0];
        case Int8(x) => bytes := [EncodeI8(x)];
        case UInt8(x) => bytes := [x];
        case Int16(x) => bytes := Store16(big, ToEndian16(big, EncodeI16(x)));
        case UInt16(x) => bytes := Store16(big, ToEndian16(big, x));
        case Signed32(_, x) => bytes := Store32(big, ToEndian32(big, EncodeI32(x)));
        case Unsigned32(_, x) => bytes := Store32(big, ToEndian32(big, x));
        case Int64(x) => bytes := Store64(big, ToEndian64(big, EncodeI64(x)));
        case Unsigned64(_, x) => bytes := Store64(big, ToEndian64(big, x));
        case Float(x) => bytes := Store32(big, ToEndian32(big, EncodeF32(x)));
        case Double(x) => bytes := Store64(big, ToEndian64(big, EncodeF64(x)));
        case Str(x) => bytes := x + [0];
      }
    }

    method AppendValue(v: Value)
      modifies this
      ensures data == old(data) + Encode(v)
      ensures forall vs :: old(data) == EncodeAll(vs) ==> data == EncodeAll(vs + [v])
    {
      hide Encode, EncodeAll;
      forall vs | data == EncodeAll(vs) ensures data + Encode(v) == EncodeAll(vs + [v]) {
        EncodeAllAppend(vs, v);
      }
      var bytes := BytesOf(v);
      data := data + bytes;
    }

    /** Fails (std::out_of_range) when the position is not in the key. */
    method ReplacePartitionCol(v: Value, pos: int) returns (ok: bool)
      modifies this
      ensures ok <==> (IsPartitionValue(v) ==> 0 <= pos <= |old(data)|)
      ensures data == if ok && IsPartitionValue(v) then Replaced(old(data), pos, Encode(v)) else old(data)
    {
      if !IsPartitionValue(v) {
        return true;
      }
      if pos < 0 || pos > |data| {
        return false;
      }
      PartitionBytes(big, v);
      hide Encode, Store32, Store64, ToEndian32, ToEndian64;
      var bytes := if v.Unsigned32? then Store32(big, ToEndian32(big, v.u32))
                   else Store64(big, ToEndian64(big, v.u64));
      var tail := if pos + |bytes| <= |data| then data[pos + |bytes|..] else [];
      data := data[..pos] + bytes + tail;
      ok := true;
    }
  }

  /** get_partition_col_pos: the offset of column `columns`, starting from pos, or -1. */
  method GetPartitionColPos(types: seq<Type>, columns: nat, data: seq<u8>, start: nat)
    returns (pos: int, terminated: bool)
    ensures |types| < columns ==> pos == -1
    ensures |types| >= columns ==>
              match SkipFields(types[..columns], data, start)
              case Fields(_, p) => terminated && pos == p
              case OutOfBound => terminated && pos == -1
              case Unterminated => !terminated
  {
    terminated := true;
    if |types| < columns {
      return -1, true;
    }
    pos := start;
    var i := 0;
    while i < columns
      invariant 0 <= i <= columns && pos >= 0
      invariant SkipFields(types[..columns], data, start) == SkipFields(types[i..columns], data, pos)
    {
      assert types[i..columns][1..] == types[i + 1..columns];
      match SkipField(types[i], data, pos) {
        case OutOfBound => return -1, true;
        case Unterminated => return -1, false;
        case Fields(_, p) => pos := p;
      }
      i := i + 1;
    }
    assert types[i..columns] == [];
  }
}
