/** The count-min sketch of a column: every inserted hash adds its count to one cell in each row. */
module CountMinSketch {
  import opened Arithmetic
  import opened BitOperations
  import opened Options
  import TopK
  import opened Words

  /** (hash >> 17) | (hash << 15) */
  function Delta(hash: u64): nat { Or(ShiftRight(hash, 17), ShiftLeft(hash, 15) % TWO64) }

  /** The steps between rows are the hash moved down by 17 bits over the hash moved up by 15. */
  lemma DeltaBit(hash: u64, i: nat)
    ensures Bit(Delta(hash), i) <==> Bit(hash, i + 17) || (15 <= i < 64 && Bit(hash, i - 15))
  {
    hide Bit, Or, ShiftRight, ShiftLeft, Pow2;
    var up := ShiftLeft(hash, 15);
    OrBit(ShiftRight(hash, 17), up % TWO64, i);
    ShiftRightBit(hash, 17, i);
    ShiftLeftBit(hash, 15, i);
    WordPower();
    CutBit(up / TWO64, up % TWO64, 64, i);
  }

  lemma WordPower()
    ensures Pow2(64) == TWO64
  {
    BytePowers();
    Pow2Adds8(56);
  }

  /** The hash of row i: hash + i * delta, as a 64-bit word. */
  function RowHash(hash: u64, i: nat): u64 { if i == 0 then hash else (RowHash(hash, i - 1) + Delta(hash)) % TWO64 }

  /** The cell of a hash in row i. */
  function Column(hash: u64, i: nat, width: int): (j: int)
    requires width > 0
    ensures 0 <= j < width
  {
    RowHash(hash, i) % width
  }

  // ----- The sketch of a stream

  datatype Insert = Insert(hash: u64, count: nat)

  /** What a stream adds to cell (i, j). */
  function CellSum(stream: seq<Insert>, i: nat, j: int, width: int): nat
    requires width > 0
  {
    if stream == [] then 0
    else
      var x := stream[|stream| - 1];
      CellSum(stream[..|stream| - 1], i, j, width) + if Column(x.hash, i, width) == j then x.count else 0
  }

  /** How often a hash was inserted. */
  function TrueCount(stream: seq<Insert>, hash: u64): nat {
    if stream == [] then 0
    else
      var x := stream[|stream| - 1];
      TrueCount(stream[..|stream| - 1], hash) + if x.hash == hash then x.count else 0
  }

  function TotalCount(stream: seq<Insert>): nat {
    if stream == [] then 0 else TotalCount(stream[..|stream| - 1]) + stream[|stream| - 1].count
  }

  /** Cells 0 to n - 1 of row i. */
  function RowSum(stream: seq<Insert>, i: nat, n: nat, width: int): nat
    requires width > 0
  {
    if n == 0 then 0 else RowSum(stream, i, n - 1, width) + CellSum(stream, i, n - 1, width)
  }

  /** A cell never falls short of the hashes it counts. */
  lemma {:induction false} CellNeverUndercounts(stream: seq<Insert>, hash: u64, i: nat, width: int)
    requires width > 0
    ensures TrueCount(stream, hash) <= CellSum(stream, i, Column(hash, i, width), width)
  {
    if stream != [] {
      CellNeverUndercounts(stream[..|stream| - 1], hash, i, width);
    }
  }

  lemma {:induction false} RowGains(stream: seq<Insert>, i: nat, n: nat, width: int)
    requires width > 0 && stream != []
    ensures var x := stream[|stream| - 1];
            RowSum(stream, i, n, width) == RowSum(stream[..|stream| - 1], i, n, width)
                                           + if Column(x.hash, i, width) < n then x.count else 0
  {
    if n > 0 {
      RowGains(stream, i, n - 1, width);
    }
  }

  /** Every row sums to the whole stream. */
  lemma {:induction false} RowsSumToTotal(stream: seq<Insert>, i: nat, width: int)
    requires width > 0
    ensures RowSum(stream, i, width, width) == TotalCount(stream)
  {
    if stream == [] {
      EmptyRow(i, width, width);
    } else {
      RowsSumToTotal(stream[..|stream| - 1], i, width);
      RowGains(stream, i, width, width);
    }
  }

  lemma {:induction false} EmptyRow(i: nat, n: nat, width: int)
    requires width > 0
    ensures RowSum([], i, n, width) == 0
  {
    if n > 0 {
      EmptyRow(i, n - 1, width);
    }
  }

  lemma {:induction false} CellsOfSum(a: seq<Insert>, b: seq<Insert>, i: nat, j: int, width: int)
    requires width > 0
    ensures CellSum(a + b, i, j, width) == CellSum(a, i, j, width) + CellSum(b, i, j, width)
  {
    if b == [] {
      assert a + b == a;
    } else {
      assert (a + b)[..|a + b| - 1] == a + b[..|b| - 1];
      CellsOfSum(a, b[..|b| - 1], i, j, width);
    }
  }

  // ----- The cells on the wire

  datatype Item = Item(depth: int, width: int, value: int)

  function ItemSum(items: seq<Item>, i: int, j: int): int {
    if items == [] then 0
    else
      var x := items[|items| - 1];
      ItemSum(items[..|items| - 1], i, j) + if x.depth == i && x.width == j then x.value else 0
  }

  /** All items name a cell. */
  predicate InRange(items: seq<Item>, depth: int, width: int) {
    forall k :: 0 <= k < |items| ==> 0 <= items[k].depth < depth && 0 <= items[k].width < width
  }

  // ----- The column

  class CMsketchColumn {
    const fieldId: int
    const cells: array2<int>
    var totalCnt: int

    /** The cells are those of a stream. */
    ghost predicate Sketches(stream: seq<Insert>)
      reads cells
    {
      && cells.Length1 > 0
      && forall i, j :: 0 <= i < cells.Length0 && 0 <= j < cells.Length1 ==>
           cells[i, j] == CellSum(stream, i, j, cells.Length1)
    }

    constructor (depth: int, width: int, fieldId: int)
      requires depth > 0 && width > 0
      ensures fresh(cells) && cells.Length0 == depth && cells.Length1 == width && this.fieldId == fieldId
      ensures Sketches([]) && totalCnt == 0
    {
      this.fieldId := fieldId;
      cells := new int[depth, width]((i, j) => 0);
      totalCnt := 0;
    }

    /** set_value */
    method SetValue(hash0: u64, count: nat, ghost stream: seq<Insert>)
      requires Sketches(stream)
      modifies cells
      ensures Sketches(stream + [Insert(hash0, count)])
    {
      var delta := Delta(hash0);
      var hash := hash0;
      var i := 0;
      while i < cells.Length0
        invariant 0 <= i <= cells.Length0 && hash == RowHash(hash0, i)
        invariant forall k, j :: 0 <= k < cells.Length0 && 0 <= j < cells.Length1 ==>
                    cells[k, j] == CellSum(stream, k, j, cells.Length1)
                                   + if k < i && Column(hash0, k, cells.Length1) == j then count else 0
      {
        var j := hash % cells.Length1;
        cells[i, j] := cells[i, j] + count;
        hash := (hash + delta) % TWO64;
        i := i + 1;
      }
      assert (stream + [Insert(hash0, count)])[..|stream|] == stream;
    }

    /** operator+=: the sketch of both streams, or no change when the dimensions differ. */
    method PlusAssign(other: CMsketchColumn, ghost stream: seq<Insert>, ghost others: seq<Insert>)
      requires Sketches(stream) && other.Sketches(others)
      modifies cells
      ensures if cells.Length0 == other.cells.Length0 && cells.Length1 == other.cells.Length1
              then Sketches(stream + others) else Sketches(stream)
    {
      if cells.Length0 != other.cells.Length0 || cells.Length1 != other.cells.Length1 {
        return;
      }
      ghost var w := cells.Length1;
      var i := 0;
      while i < cells.Length0
        invariant 0 <= i <= cells.Length0
        invariant forall k, j :: 0 <= k < cells.Length0 && 0 <= j < w ==>
                    cells[k, j] == CellSum(stream, k, j, w) + if k < i then old(other.cells[k, j]) else 0
        invariant forall k, j :: i <= k < cells.Length0 && 0 <= j < w ==> other.cells[k, j] == old(other.cells[k, j])
      {
        var j := 0;
        while j < cells.Length1
          invariant 0 <= j <= w
          invariant forall k, l :: 0 <= k < cells.Length0 && 0 <= l < w ==>
                      cells[k, l] == CellSum(stream, k, l, w)
                                     + if k < i || (k == i && l < j) then old(other.cells[k, l]) else 0
          invariant forall k, l :: i <= k < cells.Length0 && 0 <= l < w && (k > i || l >= j) ==>
                      other.cells[k, l] == old(other.cells[k, l])
        {
          cells[i, j] := cells[i, j] + other.cells[i, j];
          j := j + 1;
        }
        i := i + 1;
      }
      forall k, j | 0 <= k < cells.Length0 && 0 <= j < w
        ensures cells[k, j] == CellSum(stream + others, k, j, w)
      {
        CellsOfSum(stream, others, k, j, w);
      }
    }

    /** to_proto: the positive cells, row by row. */
    method ToProto() returns (items: seq<Item>)
      requires forall i, j :: 0 <= i < cells.Length0 && 0 <= j < cells.Length1 ==> cells[i, j] >= 0
      ensures InRange(items, cells.Length0, cells.Length1)
      ensures forall i, j :: 0 <= i < cells.Length0 && 0 <= j < cells.Length1 ==> ItemSum(items, i, j) == cells[i, j]
    {
      items := [];
      var i := 0;
      while i < cells.Length0
        invariant 0 <= i <= cells.Length0 && InRange(items, cells.Length0, cells.Length1)
        invariant forall k, l :: 0 <= k < cells.Length0 && 0 <= l < cells.Length1 ==>
                    ItemSum(items, k, l) == if k < i then cells[k, l] else 0
      {
        items := RowItems(i, items);
        i := i + 1;
      }
    }

    /** The inner loop of to_proto. */
    method RowItems(i: int, before: seq<Item>) returns (items: seq<Item>)
      requires 0 <= i < cells.Length0 && InRange(before, cells.Length0, cells.Length1)
      requires forall j :: 0 <= j < cells.Length1 ==> cells[i, j] >= 0
      ensures InRange(items, cells.Length0, cells.Length1)
      ensures forall k, l :: 0 <= k < cells.Length0 && 0 <= l < cells.Length1 ==>
                ItemSum(items, k, l) == ItemSum(before, k, l) + if k == i then cells[i, l] else 0
    {
      items := before;
      var j := 0;
      while j < cells.Length1
        invariant 0 <= j <= cells.Length1 && InRange(items, cells.Length0, cells.Length1)
        invariant forall k, l :: 0 <= k < cells.Length0 && 0 <= l < cells.Length1 ==>
                    ItemSum(items, k, l) == ItemSum(before, k, l) + if k == i && l < j then cells[i, l] else 0
      {
        if cells[i, j] > 0 {
          var x := Item(i, j, cells[i, j]);
          forall k, l | 0 <= k < cells.Length0 && 0 <= l < cells.Length1
            ensures ItemSum(items + [x], k, l) == ItemSum(items, k, l) + if i == k && j == l then cells[i, j] else 0
          {
          }
          items := items + [x];
        }
        j := j + 1;
      }
    }

    /** The items of add_proto enter the cells. */
    method AddItems(items: seq<Item>)
      requires InRange(items, cells.Length0, cells.Length1)
      modifies cells
      ensures forall i, j :: 0 <= i < cells.Length0 && 0 <= j < cells.Length1 ==>
                cells[i, j] == old(cells[i, j]) + ItemSum(items, i, j)
    {
      var n := 0;
      while n < |items|
        invariant 0 <= n <= |items|
        invariant forall i, j :: 0 <= i < cells.Length0 && 0 <= j < cells.Length1 ==>
                    cells[i, j] == old(cells[i, j]) + ItemSum(items[..n], i, j)
      {
        var x := items[n];
        assert items[..n + 1] == items[..n] + [x];
        forall i, j | 0 <= i < cells.Length0 && 0 <= j < cells.Length1
          ensures ItemSum(items[..n + 1], i, j) == ItemSum(items[..n], i, j)
                                                   + if x.depth == i && x.width == j then x.value else 0
        {
        }
        cells[x.depth, x.width] := cells[x.depth, x.width] + x.value;
        n := n + 1;
      }
      assert items[..n] == items;
    }

    /** add_proto of another column's to_proto: the sketch of both streams, for the same field. */
    method AddProto(items: seq<Item>, itemsField: int, ghost stream: seq<Insert>, ghost others: seq<Insert>)
      requires Sketches(stream) && InRange(items, cells.Length0, cells.Length1) && cells.Length0 > 0
      requires forall i, j :: 0 <= i < cells.Length0 && 0 <= j < cells.Length1 ==>
                 ItemSum(items, i, j) == CellSum(others, i, j, cells.Length1)
      modifies this, cells
      ensures Sketches(if fieldId == itemsField then stream + others else stream)
      ensures totalCnt == old(totalCnt) + if fieldId == itemsField then TotalCount(stream + others) else 0
    {
      if fieldId != itemsField {
        return;
      }
      AddItems(items);
      forall i, j | 0 <= i < cells.Length0 && 0 <= j < cells.Length1
        ensures cells[i, j] == CellSum(stream + others, i, j, cells.Length1)
      {
        CellsOfSum(stream, others, i, j, cells.Length1);
      }
      var j := 0;
      while j < cells.Length1
        invariant 0 <= j <= cells.Length1 && Sketches(stream + others)
        invariant totalCnt == old(totalCnt) + RowSum(stream + others, 0, j, cells.Length1)
      {
        totalCnt := totalCnt + cells[0, j];
        j := j + 1;
      }
      RowsSumToTotal(stream + others, 0, cells.Length1);
    }

    /** get_total_rows: the size of the stream. */
    method GetTotalRows(ghost stream: seq<Insert>) returns (total: int)
      requires Sketches(stream) && cells.Length0 > 0
      ensures total == TotalCount(stream)
    {
      total := 0;
      var j := 0;
      while j < cells.Length1
        invariant 0 <= j <= cells.Length1 && total == RowSum(stream, 0, j, cells.Length1)
      {
        total := total + cells[0, j];
        j := j + 1;
      }
      RowsSumToTotal(stream, 0, cells.Length1);
    }

    /** The cells of a hash in the first n rows. */
    ghost function CellsOf(hash: u64, n: nat): (r: seq<int>)
      requires n <= cells.Length0 && cells.Length1 > 0
      reads cells
      ensures |r| == n && forall i :: 0 <= i < n ==> r[i] == cells[i, Column(hash, i, cells.Length1)]
    {
      if n == 0 then [] else CellsOf(hash, n - 1) + [cells[n - 1, Column(hash, n - 1, cells.Length1)]]
    }

    /** get_value; None where the sum of two middle values overflows an int. */
    method GetValue(hash0: u64) returns (v: Option<int>)
      requires cells.Length0 > 0 && cells.Length1 > 1
      ensures v == Estimate(CellsOf(hash0, cells.Length0), totalCnt, cells.Length1)
    {
      hide SortedUp, Denoised, Least, TruncDiv, CellsOf, Narrow;
      var values, minValue := Gather(hash0);
      values := SortedUp(values);
      var mid := cells.Length0 / 2;
      var midValue;
      if cells.Length0 % 2 == 0 {
        if !IsInt32(values[mid] + values[mid - 1]) {
          return None;
        }
        midValue := TruncDiv(values[mid] + values[mid - 1], 2);
      } else {
        midValue := values[mid];
      }
      if midValue < 0 {
        midValue := 0;
      } else if midValue > minValue {
        midValue := minValue;
      }
      v := Some(Narrow(midValue));
    }

    /** The loop of get_value. */
    method Gather(hash0: u64) returns (values: seq<int>, minValue: int)
      requires cells.Length1 > 1
      ensures var row := CellsOf(hash0, cells.Length0);
              minValue == Least(row) && values == Narrowed(Denoised(row, totalCnt, cells.Length1))
    {
      hide Least, Denoised, Narrowed, TruncDiv, Delta, Narrow;
      values, minValue := [], INT64_MAX;
      var delta := Delta(hash0);
      var hash := hash0;
      var i := 0;
      Nothing(totalCnt, cells.Length1);
      while i < cells.Length0
        invariant 0 <= i <= cells.Length0 && hash == RowHash(hash0, i)
        invariant minValue == Least(CellsOf(hash0, i))
        invariant values == Narrowed(Denoised(CellsOf(hash0, i), totalCnt, cells.Length1))
      {
        var j := hash % cells.Length1;
        OneMore(CellsOf(hash0, i), cells[i, j], totalCnt, cells.Length1);
        if minValue > cells[i, j] {
          minValue := cells[i, j];
        }
        var noise := TruncDiv(totalCnt - cells[i, j], cells.Length1 - 1);
        if cells[i, j] < noise {
          values := values + [0];
        } else {
          values := values + [Narrow(cells[i, j] - noise)];
        }
        hash := (hash + delta) % TWO64;
        i := i + 1;
      }
    }
  }

  // ----- The estimate

  function Least(row: seq<int>): (m: int)
    ensures m <= INT64_MAX && forall i :: 0 <= i < |row| ==> m <= row[i]
    ensures m == INT64_MAX || m in row
  {
    if row == [] then INT64_MAX
    else
      var m := Least(row[..|row| - 1]);
      if m > row[|row| - 1] then row[|row| - 1] else m
  }

  /** Each cell less the share of other hashes that it is expected to hold. */
  function Denoised(row: seq<int>, total: int, width: int): (r: seq<int>)
    requires width > 1
    ensures |r| == |row|
  {
    if row == [] then []
    else
      var c := row[|row| - 1];
      var noise := TruncDiv(total - c, width - 1);
      Denoised(row[..|row| - 1], total, width) + [if c < noise then 0 else c - noise]
  }

  /** The values are kept as ints. */
  function Narrowed(s: seq<int>): (r: seq<int>)
    ensures |r| == |s| && forall i :: 0 <= i < |s| ==> r[i] == Narrow(s[i])
  {
    if s == [] then [] else Narrowed(s[..|s| - 1]) + [Narrow(s[|s| - 1])]
  }

  lemma Nothing(total: int, width: int)
    requires width > 1
    ensures Least([]) == INT64_MAX && Narrowed(Denoised([], total, width)) == []
  {
  }

  lemma OneMore(row: seq<int>, c: int, total: int, width: int)
    requires width > 1
    ensures Least(row + [c]) == if Least(row) > c then c else Least(row)
    ensures var noise := TruncDiv(total - c, width - 1);
            Narrowed(Denoised(row + [c], total, width)) ==
            Narrowed(Denoised(row, total, width)) + [if c < noise then 0 else Narrow(c - noise)]
  {
  }

  function Inserted(s: seq<int>, x: int): (r: seq<int>)
    ensures |r| == |s| + 1
  {
    if s == [] || x <= s[0] then [x] + s else [s[0]] + Inserted(s[1..], x)
  }

  /** std::sort */
  function SortedUp(s: seq<int>): (r: seq<int>)
    ensures |r| == |s|
  {
    if s == [] then [] else Inserted(SortedUp(s[1..]), s[0])
  }

  predicate Ascending(s: seq<int>) { forall i, j :: 0 <= i < j < |s| ==> s[i] <= s[j] }

  lemma {:induction false} InsertedMembers(s: seq<int>, x: int)
    ensures multiset(Inserted(s, x)) == multiset(s) + multiset{x}
  {
    if s != [] && x > s[0] {
      InsertedMembers(s[1..], x);
      assert s == [s[0]] + s[1..];
    }
  }

  lemma {:induction false} InsertedSorts(s: seq<int>, x: int)
    requires Ascending(s)
    ensures Ascending(Inserted(s, x)) && Inserted(s, x)[0] == if s == [] || x <= s[0] then x else s[0]
  {
    if s != [] && x > s[0] {
      InsertedSorts(s[1..], x);
    }
  }

  lemma {:induction false} SortedUpSorts(s: seq<int>)
    ensures Ascending(SortedUp(s)) && multiset(SortedUp(s)) == multiset(s)
  {
    if s != [] {
      SortedUpSorts(s[1..]);
      InsertedSorts(SortedUp(s[1..]), s[0]);
      InsertedMembers(SortedUp(s[1..]), s[0]);
      assert s == [s[0]] + s[1..];
    }
  }

  function Clipped(median: int, least: int): int {
    if median < 0 then 0 else if median > least then least else median
  }

  function Middle(values: seq<int>): int
    requires values != []
  {
    var mid := |values| / 2;
    if |values| % 2 == 0 then TruncDiv(values[mid] + values[mid - 1], 2) else values[mid]
  }

  function Reversed(s: seq<int>): (r: seq<int>)
    ensures |r| == |s| && forall i :: 0 <= i < |s| ==> r[i] == s[|s| - 1 - i]
  {
    if s == [] then [] else [s[|s| - 1]] + Reversed(s[..|s| - 1])
  }

  lemma {:induction false} ReversedPermutes(s: seq<int>)
    ensures multiset(Reversed(s)) == multiset(s)
  {
    if s != [] {
      ReversedPermutes(s[..|s| - 1]);
      assert s == s[..|s| - 1] + [s[|s| - 1]];
    }
  }

  lemma OrderStatistic(s: seq<int>, k: nat)
    requires 1 <= k <= |s|
    ensures TopK.KthLargest(s, k, SortedUp(s)[|s| - k])
  {
    hide SortedUp, TopK.KthLargest;
    var v := SortedUp(s);
    SortedUpSorts(s);
    ReversedPermutes(v);
    TopK.KthInOrder(s, Reversed(v), k, v[|s| - k]);
  }

  /** The middle of the sorted values is their median: of an odd number the one with as many above it as
      below, of an even number the mean of the two in the middle, rounded down. */
  lemma MiddleIsMedian(s: seq<int>) returns (low: int, high: int)
    requires s != [] && forall i :: 0 <= i < |s| ==> s[i] >= 0
    ensures TopK.KthLargest(s, |s| / 2 + 1, low) && TopK.KthLargest(s, (|s| + 1) / 2, high)
    ensures 2 * Middle(SortedUp(s)) <= low + high <= 2 * Middle(SortedUp(s)) + 1
    ensures |s| % 2 == 1 ==> Middle(SortedUp(s)) == low == high
  {
    hide SortedUp, TopK.KthLargest;
    var n, v := |s|, SortedUp(s);
    low, high := v[n - (n / 2 + 1)], v[n - (n + 1) / 2];
    OrderStatistic(s, n / 2 + 1);
    OrderStatistic(s, (n + 1) / 2);
    SortedUpKeeps(s, n - (n / 2 + 1));
    SortedUpKeeps(s, n - (n + 1) / 2);
    assert low >= 0 && high >= 0;
  }

  /** The median of the denoised cells, but no more than the least cell. */
  function Estimate(row: seq<int>, total: int, width: int): Option<int>
    requires row != [] && width > 1
  {
    var values, mid := SortedUp(Narrowed(Denoised(row, total, width))), |row| / 2;
    if |row| % 2 == 0 && !IsInt32(values[mid] + values[mid - 1]) then None
    else Some(Narrow(Clipped(Middle(values), Least(row))))
  }

  lemma MiddleIsInt32(values: seq<int>)
    requires values != [] && forall i :: 0 <= i < |values| ==> IsInt32(values[i])
    requires |values| % 2 == 0 ==> IsInt32(values[|values| / 2] + values[|values| / 2 - 1])
    ensures IsInt32(Middle(values))
  {
  }

  lemma SortedUpKeeps(s: seq<int>, i: nat)
    requires i < |s|
    ensures SortedUp(s)[i] in s
  {
    SortedUpSorts(s);
    assert SortedUp(s)[i] in multiset(SortedUp(s));
  }

  /** The estimate, where there is one, never exceeds a cell of the hash, and survives as an int. */
  lemma EstimateIsBounded(row: seq<int>, total: int, width: int)
    requires row != [] && width > 1 && forall i :: 0 <= i < |row| ==> row[i] >= 0
    requires Estimate(row, total, width).Some?
    ensures 0 <= Estimate(row, total, width).value
    ensures forall i :: 0 <= i < |row| ==> Estimate(row, total, width).value <= row[i]
  {
    hide Narrow, Middle, SortedUp;
    var values := SortedUp(Narrowed(Denoised(row, total, width)));
    forall i | 0 <= i < |values| ensures IsInt32(values[i]) {
      SortedUpKeeps(Narrowed(Denoised(row, total, width)), i);
    }
    MiddleIsInt32(values);
  }

  lemma {:induction false} DenoisedAtMostTwice(row: seq<int>, total: nat, width: int, i: nat)
    requires width > 1 && i < |row| && row[i] >= 0
    ensures 0 <= Denoised(row, total, width)[i] <= 2 * row[i]
    decreases |row|
  {
    if i < |row| - 1 {
      DenoisedAtMostTwice(row[..|row| - 1], total, width, i);
    } else {
      QuotientShrinks(if total >= row[i] then total - row[i] else row[i] - total, width - 1);
    }
  }

  /** Below 2^29 neither the int cells nor the sum of two can overflow: the estimate is the median of
      the values themselves. */
  lemma SmallCellsAreExact(row: seq<int>, total: nat, width: int)
    requires row != [] && width > 1 && forall i :: 0 <= i < |row| ==> 0 <= row[i] < 0x2000_0000
    ensures Estimate(row, total, width) ==
            Some(Clipped(Middle(SortedUp(Denoised(row, total, width))), Least(row)))
  {
    hide Narrow, Middle, SortedUp, Denoised;
    var plain := Denoised(row, total, width);
    forall i | 0 <= i < |plain| ensures 0 <= plain[i] < 0x4000_0000 && Narrow(plain[i]) == plain[i] {
      DenoisedAtMostTwice(row, total, width, i);
    }
    assert Narrowed(plain) == plain;
    var values := SortedUp(plain);
    forall i | 0 <= i < |values| ensures 0 <= values[i] < 0x4000_0000 {
      SortedUpKeeps(plain, i);
    }
    MiddleIsInt32(values);
  }

  // ----- One hash only

  function Copies(c: int, d: nat): (r: seq<int>)
    ensures |r| == d && forall i :: 0 <= i < d ==> r[i] == c
  {
    seq(d, _ => c)
  }

  lemma {:induction false} SortedCopies(c: int, d: nat)
    ensures SortedUp(Copies(c, d)) == Copies(c, d)
  {
    if d > 0 {
      SortedCopies(c, d - 1);
      assert Copies(c, d)[1..] == Copies(c, d - 1);
      assert Copies(c, d) == [c] + Copies(c, d - 1);
    }
  }

  /** A cell less its noise. */
  function Quiet(c: int, total: int, width: int): int
    requires width > 1
  {
    var noise := TruncDiv(total - c, width - 1);
    if c < noise then 0 else c - noise
  }

  lemma {:induction false} DenoisedCopies(c: int, d: nat, total: int, width: int)
    requires width > 1
    ensures Denoised(Copies(c, d), total, width) == Copies(Quiet(c, total, width), d)
  {
    if d > 0 {
      DenoisedCopies(c, d - 1, total, width);
      assert Copies(c, d)[..d - 1] == Copies(c, d - 1);
    }
  }

  /** Two middle values are added as ints. */
  function Bound(depth: nat): int { if depth % 2 == 0 then 0x4000_0000 else 0x8000_0000 }

  lemma EstimateOfCopies(c: nat, d: nat, total: int, width: int)
    requires d > 0 && width > 1
    ensures var q := Narrow(Quiet(c, total, width));
            Estimate(Copies(c, d), total, width) ==
            if d % 2 == 0 && !IsInt32(q + q) then None
            else Some(Narrow(Clipped(q, if c <= INT64_MAX then c else INT64_MAX)))
  {
    hide SortedUp, Denoised, Narrow, Quiet;
    var q := Narrow(Quiet(c, total, width));
    DenoisedCopies(c, d, total, width);
    assert Narrowed(Copies(Quiet(c, total, width), d)) == Copies(q, d);
    SortedCopies(q, d);
    assert Copies(c, d)[0] == c;
    assert Least(Copies(c, d)) == if c <= INT64_MAX then c else INT64_MAX;
  }

  /** How many insertions of one hash come back exactly, in any number of rows and for any counted
      total: where the total is at least the count, the noise must round to 0; where it is less, the
      noise is negative and the cell grows, up to twice the count, before it is kept as an int. */
  predicate Survives(c: nat, depth: nat, total: nat, width: int)
    requires width > 1
  {
    c == 0 ||
    if total >= c then total - c < width - 1 && c < Bound(depth)
    else c + (c - total) / (width - 1) < Bound(depth)
  }

  lemma QuietIs(c: nat, total: nat, width: int)
    requires width > 1
    ensures var q := Quiet(c, total, width);
            if total >= c then 0 <= q <= c && (q == c <==> c == 0 || total - c < width - 1)
            else q == c + (c - total) / (width - 1) && c <= q <= 2 * c
  {
    if total >= c {
      QuotientAtLeast(total - c, width - 1, 0);
      QuotientAtLeast(total - c, width - 1, 1);
    } else {
      QuotientShrinks(c - total, width - 1);
    }
  }

  lemma CopiesAreExactIff(c: nat, d: nat, total: nat, width: int)
    requires d > 0 && width > 1
    ensures Estimate(Copies(c, d), total, width) == Some(c) <==> Survives(c, d, total, width)
  {
    hide Estimate, Copies, Quiet;
    EstimateOfCopies(c, d, total, width);
    QuietIs(c, total, width);
  }

  predicate OnlyHash(stream: seq<Insert>, hash: u64) {
    forall k :: 0 <= k < |stream| ==> stream[k].hash == hash
  }

  lemma {:induction false} CellOfOnlyHash(stream: seq<Insert>, hash: u64, i: nat, width: int)
    requires width > 0 && OnlyHash(stream, hash)
    ensures CellSum(stream, i, Column(hash, i, width), width) == TotalCount(stream)
  {
    if stream != [] {
      CellOfOnlyHash(stream[..|stream| - 1], hash, i, width);
    }
  }

  /** A column that saw one hash only, in any number of insertions, estimates it exactly if and only if
      its count survives. */
  lemma OneHashIsExactIff(column: CMsketchColumn, stream: seq<Insert>, hash: u64)
    requires column.Sketches(stream) && OnlyHash(stream, hash) && column.totalCnt >= 0
    requires column.cells.Length0 > 0 && column.cells.Length1 > 1
    ensures var d, width := column.cells.Length0, column.cells.Length1;
            Estimate(column.CellsOf(hash, d), column.totalCnt, width) == Some(TotalCount(stream)) <==>
            Survives(TotalCount(stream), d, column.totalCnt, width)
  {
    var d, width := column.cells.Length0, column.cells.Length1;
    forall i: nat | i < d ensures column.CellsOf(hash, d)[i] == TotalCount(stream) {
      CellOfOnlyHash(stream, hash, i, width);
    }
    hide Estimate, Survives;
    assert column.CellsOf(hash, d) == Copies(TotalCount(stream), d);
    CopiesAreExactIff(TotalCount(stream), d, column.totalCnt, width);
  }

  /** Both failures, at the depth of 5: 2^31 insertions of one hash, and, where the column does not
      count its total, 5 * 2^28 of them. */
  lemma LargeCountsAreLost()
    ensures Estimate(Copies(0x8000_0000, 5), 0x8000_0000, 2048) == Some(0)
    ensures Estimate(Copies(0x5000_0000, 5), 0, 2) == Some(0)
  {
    EstimateOfCopies(0x8000_0000, 5, 0x8000_0000, 2048);
    EstimateOfCopies(0x5000_0000, 5, 0, 2);
  }
}
