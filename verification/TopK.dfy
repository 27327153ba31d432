/** The K largest of a stream of samples, in a min-heap whose root is the K-th largest: the basis of
    the 99.99 percentile. */
module TopK {
  import opened Arithmetic

  // ----- The heap, from index 1; index 0 holds the number of elements

  predicate IsHeap(s: seq<int>) {
    forall k :: 2 <= k < |s| ==> s[k / 2] <= s[k]
  }

  /** A heap but for element i, which may be too large. */
  predicate HeapBut(s: seq<int>, i: nat) {
    && (forall k :: 2 <= k < |s| && k / 2 != i ==> s[k / 2] <= s[k])
    && (forall k :: 2 <= k < |s| && k / 2 == i && i >= 2 ==> s[i / 2] <= s[k])
  }

  /** Of element i and its children, the index of the least. */
  function MinChild(s: seq<int>, i: nat): (m: nat)
    requires 1 <= i < |s|
    ensures m == i || (m / 2 == i && 2 <= m < |s| && s[m] < s[i])
    ensures forall k :: 2 <= k < |s| && k / 2 == i ==> s[m] <= s[k]
  {
    var left := if 2 * i < |s| && s[2 * i] < s[i] then 2 * i else i;
    if 2 * i + 1 < |s| && s[2 * i + 1] < s[left] then 2 * i + 1 else left
  }

  function Swap(s: seq<int>, i: nat, j: nat): seq<int>
    requires i < |s| && j < |s|
  {
    s[i := s[j]][j := s[i]]
  }

  /** Element i moved down to where it belongs. */
  function Sifted(s: seq<int>, i: nat): (r: seq<int>)
    requires 1 <= i < |s|
    ensures |r| == |s| && r[0] == s[0]
    decreases |s| - i
  {
    var m := MinChild(s, i);
    if m == i then s else Sifted(Swap(s, i, m), m)
  }

  lemma SwapPermutes(s: seq<int>, i: nat, j: nat)
    requires 1 <= i < |s| && 1 <= j < |s|
    ensures multiset(Swap(s, i, j)[1..]) == multiset(s[1..])
  {
  }

  lemma {:induction false} SiftMakesHeap(s: seq<int>, i: nat)
    requires 1 <= i < |s| && HeapBut(s, i)
    ensures IsHeap(Sifted(s, i)) && multiset(Sifted(s, i)[1..]) == multiset(s[1..])
    decreases |s| - i
  {
    var m := MinChild(s, i);
    if m != i {
      SwapPermutes(s, i, m);
      SiftMakesHeap(Swap(s, i, m), m);
    }
  }

  lemma {:induction false} RootIsLeast(s: seq<int>, k: nat)
    requires IsHeap(s) && 1 <= k < |s|
    ensures s[1] <= s[k]
  {
    if k >= 2 {
      RootIsLeast(s, k / 2);
    }
  }

  // ----- A stream of samples

  /** A sample above the root replaces it. */
  function Offer(s: seq<int>, x: int): (r: seq<int>)
    requires |s| >= 2
    ensures |r| == |s|
  {
    if x > s[1] then Sifted(s[1 := x], 1) else s
  }

  function Offers(s: seq<int>, xs: seq<int>): (r: seq<int>)
    requires |s| >= 2
    ensures |r| == |s|
  {
    if xs == [] then s else Offer(Offers(s, xs[..|xs| - 1]), xs[|xs| - 1])
  }

  lemma OneMoreOffer(s: seq<int>, xs: seq<int>, x: int)
    requires |s| >= 2
    ensures Offers(s, xs + [x]) == Offer(Offers(s, xs), x)
  {
    assert (xs + [x])[..|xs|] == xs;
  }

  /** The heap holds the largest of all that was offered; the rest is not above its root. */
  ghost predicate Largest(s: seq<int>, all: multiset<int>, rest: seq<int>) {
    && |s| >= 2 && IsHeap(s) && all == multiset(s[1..]) + multiset(rest)
    && (forall x :: x in rest ==> x <= s[1])
  }

  lemma HeapElements(s: seq<int>, x: int)
    requires IsHeap(s) && |s| >= 2 && x in s[1..]
    ensures s[1] <= x
  {
    var k :| 0 <= k < |s[1..]| && s[1..][k] == x;
    RootIsLeast(s, k + 1);
  }

  lemma RootMayBeLarge(s: seq<int>, x: int)
    requires IsHeap(s) && |s| >= 2
    ensures HeapBut(s[1 := x], 1)
  {
  }

  lemma ReplacedRoot(s: seq<int>, x: int)
    requires IsHeap(s) && |s| >= 2
    ensures var r := Sifted(s[1 := x], 1);
            IsHeap(r) && multiset(r[1..]) + multiset{s[1]} == multiset(s[1..]) + multiset{x}
  {
    hide IsHeap, HeapBut, Sifted;
    RootMayBeLarge(s, x);
    SiftMakesHeap(s[1 := x], 1);
    ReplacedElement(s[1..], x);
    assert s[1 := x][1..] == s[1..][0 := x];
  }

  lemma ReplacedElement(s: seq<int>, x: int)
    requires s != []
    ensures multiset(s[0 := x]) + multiset{s[0]} == multiset(s) + multiset{x}
  {
    assert s == [s[0]] + s[1..] && s[0 := x] == [x] + s[1..];
  }

  /** The root only grows. */
  lemma RootGrows(s: seq<int>, x: int)
    requires IsHeap(s) && |s| >= 2 && x > s[1]
    ensures s[1] <= Sifted(s[1 := x], 1)[1]
  {
    ReplacedRoot(s, x);
    hide IsHeap, Sifted;
    var r := Sifted(s[1 := x], 1);
    assert r[1] == r[1..][0] && r[1] in multiset(r[1..]);
    assert r[1] in multiset(s[1..]) + multiset{x};
    if r[1] != x {
      assert r[1] in s[1..];
      HeapElements(s, r[1]);
    }
  }

  lemma OfferKeepsLargest(s: seq<int>, all: multiset<int>, rest: seq<int>, x: int) returns (left: seq<int>)
    requires Largest(s, all, rest)
    ensures Largest(Offer(s, x), all + multiset{x}, left)
  {
    hide IsHeap, Sifted;
    if x > s[1] {
      ReplacedRoot(s, x);
      RootGrows(s, x);
      left := rest + [s[1]];
      var r, m := Sifted(s[1 := x], 1), multiset(rest);
      assert multiset(r[1..]) + multiset(left) == (multiset(r[1..]) + multiset{s[1]}) + m;
      assert all + multiset{x} == (multiset(s[1..]) + multiset{x}) + m;
    } else {
      left := rest + [x];
      assert all + multiset{x} == multiset(s[1..]) + multiset(left);
    }
  }

  /** A heap of n initial values. */
  function Initial(n: nat, v: int): (s: seq<int>)
    ensures |s| == n + 1
  {
    [n] + seq(n, _ => v)
  }

  /** After any samples the heap holds the K largest of them and the K initial values. */
  lemma {:induction false} StreamKeepsLargest(n: nat, v: int, xs: seq<int>) returns (rest: seq<int>)
    requires n >= 1
    ensures Largest(Offers(Initial(n, v), xs), multiset(Initial(n, v)[1..]) + multiset(xs), rest)
  {
    var s := Initial(n, v);
    if xs == [] {
      rest := [];
    } else {
      var front, x := xs[..|xs| - 1], xs[|xs| - 1];
      assert xs == front + [x];
      var r := StreamKeepsLargest(n, v, front);
      rest := OfferKeepsLargest(Offers(s, front), multiset(s[1..]) + multiset(front), r, x);
    }
  }

  // ----- The K-th largest

  function CountAbove(s: seq<int>, x: int): (n: nat)
    ensures n <= |s|
  {
    if s == [] then 0 else (if s[0] > x then 1 else 0) + CountAbove(s[1..], x)
  }

  lemma {:induction false} CountOfSum(a: seq<int>, b: seq<int>, x: int)
    ensures CountAbove(a + b, x) == CountAbove(a, x) + CountAbove(b, x)
  {
    if a == [] {
      assert a + b == b;
    } else {
      assert (a + b)[1..] == a[1..] + b;
      CountOfSum(a[1..], b, x);
    }
  }

  lemma CountWithout(b: seq<int>, j: nat, x: int)
    requires j < |b|
    ensures CountAbove(b, x) == (if b[j] > x then 1 else 0) + CountAbove(b[..j] + b[j + 1..], x)
  {
    var l, r := b[..j], b[j + 1..];
    assert b == l + ([b[j]] + r) && ([b[j]] + r)[1..] == r;
    CountOfSum(l, r, x);
    CountOfSum(l, [b[j]] + r, x);
  }

  lemma MultisetWithout(b: seq<int>, j: nat)
    requires j < |b|
    ensures multiset(b[..j] + b[j + 1..]) == multiset(b) - multiset{b[j]}
  {
    assert b == b[..j] + ([b[j]] + b[j + 1..]);
  }

  lemma RemoveFirst(a: seq<int>, b: seq<int>) returns (j: nat)
    requires a != [] && multiset(a) == multiset(b)
    ensures j < |b| && b[j] == a[0] && multiset(a[1..]) == multiset(b[..j] + b[j + 1..])
  {
    assert a[0] in multiset(b);
    j :| 0 <= j < |b| && b[j] == a[0];
    assert a[1..] == a[..0] + a[1..];
    assert multiset(a[1..]) == multiset(a) - multiset{a[0]} by { MultisetWithout(a, 0); }
    MultisetWithout(b, j);
  }

  /** How many elements lie above x does not depend on their order. */
  lemma {:induction false} CountOfPermutation(a: seq<int>, b: seq<int>, x: int)
    requires multiset(a) == multiset(b)
    ensures CountAbove(a, x) == CountAbove(b, x)
    decreases |a|
  {
    if a == [] {
      assert |b| == |multiset(b)| == 0;
    } else {
      var j := RemoveFirst(a, b);
      CountOfPermutation(a[1..], b[..j] + b[j + 1..], x);
      CountWithout(b, j, x);
    }
  }

  lemma {:induction false} CountAll(s: seq<int>, x: int)
    requires forall i :: 0 <= i < |s| ==> s[i] > x
    ensures CountAbove(s, x) == |s|
  {
    if s != [] {
      CountAll(s[1..], x);
    }
  }

  lemma {:induction false} CountNone(s: seq<int>, x: int)
    requires forall i :: 0 <= i < |s| ==> s[i] <= x
    ensures CountAbove(s, x) == 0
  {
    if s != [] {
      CountNone(s[1..], x);
    }
  }

  /** x is the k-th largest: fewer than k elements are above it, and k reach it. */
  predicate KthLargest(all: seq<int>, k: int, x: int) {
    CountAbove(all, x) < k <= CountAbove(all, x - 1)
  }

  predicate Descending(d: seq<int>) {
    forall i, j :: 0 <= i < j < |d| ==> d[i] >= d[j]
  }

  /** In descending order the k-th largest is at position k. */
  lemma KthInOrder(all: seq<int>, d: seq<int>, k: nat, x: int)
    requires multiset(all) == multiset(d) && Descending(d) && 1 <= k <= |d|
    ensures KthLargest(all, k, x) <==> d[k - 1] == x
  {
    CountOfPermutation(all, d, x);
    CountOfPermutation(all, d, x - 1);
    CountInOrder(d, k - 1, x);
    CountInOrder(d, k - 1, x - 1);
  }

  lemma CountInOrder(d: seq<int>, i: nat, x: int)
    requires Descending(d) && i < |d|
    ensures CountAbove(d, x) > i <==> d[i] > x
  {
    hide CountAbove;
    if d[i] > x {
      assert d == d[..i + 1] + d[i + 1..];
      CountOfSum(d[..i + 1], d[i + 1..], x);
      CountAll(d[..i + 1], x);
    } else {
      assert d == d[..i] + d[i..];
      CountOfSum(d[..i], d[i..], x);
      CountNone(d[i..], x);
    }
  }

  /** The root of a heap that holds the K largest is the K-th largest. */
  lemma RootIsKthLargest(s: seq<int>, rest: seq<int>, all: seq<int>)
    requires Largest(s, multiset(all), rest)
    ensures KthLargest(all, |s| - 1, s[1])
  {
    var h := s[1..];
    assert multiset(h + rest) == multiset(all);
    forall i | 0 <= i < |h| ensures h[i] > s[1] - 1 {
      RootIsLeast(s, i + 1);
    }
    forall i | 0 <= i < |rest| ensures rest[i] <= s[1] {
      assert rest[i] in rest;
    }
    CountOfPermutation(h + rest, all, s[1]);
    CountOfPermutation(h + rest, all, s[1] - 1);
    CountOfSum(h, rest, s[1]);
    CountOfSum(h, rest, s[1] - 1);
    CountNone(rest, s[1]);
    CountAll(h, s[1] - 1);
    assert h[0] == s[1];
  }

  /** After any window of samples the root is the K-th largest of them and the initial values. */
  lemma RootOfWindow(n: nat, v: int, window: seq<int>)
    requires n >= 1
    ensures KthLargest(Initial(n, v)[1..] + window, n, Offers(Initial(n, v), window)[1])
  {
    var rest := StreamKeepsLargest(n, v, window);
    RootIsKthLargest(Offers(Initial(n, v), window), rest, Initial(n, v)[1..] + window);
  }

  /** The initial values make no difference once there are K samples, none below them. */
  lemma InitialsDoNotCount(n: nat, v: int, xs: seq<int>, x: int)
    requires n >= 1 && |xs| >= n && forall i :: 0 <= i < |xs| ==> xs[i] >= v
    ensures KthLargest(Initial(n, v)[1..] + xs, n, x) <==> KthLargest(xs, n, x)
  {
    var init := Initial(n, v)[1..];
    CountOfSum(init, xs, x);
    CountOfSum(init, xs, x - 1);
    if x >= v {
      CountNone(init, x);
      if x == v {
        CountAll(xs, x - 1);
      } else {
        CountNone(init, x - 1);
      }
    } else {
      CountAll(init, x);
      CountAll(xs, x);
    }
  }

  // ----- HeapSort

  class HeapSort {
    const data: array<int>
    const initValue: int

    ghost predicate Valid()
      reads data
    {
      data.Length >= 2 && data[0] == data.Length - 1 && IsHeap(data[..])
    }

    /** init_heap */
    constructor (count: int, initValue: int)
      requires count >= 1
      ensures Valid() && fresh(data) && this.initValue == initValue && data[..] == Initial(count, initValue)
    {
      this.initValue := initValue;
      var a := new int[count + 1];
      data := a;
      a[0] := count;
      var i := 1;
      while i < count + 1
        invariant 1 <= i <= count + 1 && a[0] == count
        invariant forall k :: 1 <= k < i ==> a[k] == initValue
      {
        a[i] := initValue;
        i := i + 1;
      }
    }

    method GetMinValue() returns (v: int)
      requires Valid()
      ensures v == data[1] && forall x :: x in data[1..] ==> v <= x
    {
      v := data[1];
      assert data[..][1..] == data[1..];
      forall x | x in data[1..] ensures v <= x {
        HeapElements(data[..], x);
      }
    }

    /** _min_heapify */
    method MinHeapify(index: int)
      requires 1 <= index < data.Length && data[0] == data.Length - 1
      modifies data
      ensures data[..] == Sifted(old(data[..]), index)
      decreases data.Length - index
    {
      var left := 2 * index;
      var right := 2 * index + 1;
      var minIndex := index;
      if left <= data[0] && data[left] < data[index] {
        minIndex := left;
      }
      if right <= data[0] && data[right] < data[minIndex] {
        minIndex := right;
      }
      assert minIndex == MinChild(data[..], index);
      if minIndex != index {
        var tmp := data[index];
        data[index] := data[minIndex];
        data[minIndex] := tmp;
        assert data[..] == Swap(old(data[..]), index, minIndex);
        MinHeapify(minIndex);
      }
    }

    /** heap_down: the root gives way to value. */
    method HeapDown(value: int) returns (minValue: int)
      requires Valid()
      modifies data
      ensures Valid() && minValue == old(data[1]) && data[..] == Sifted(old(data[..])[1 := value], 1)
    {
      RootMayBeLarge(data[..], value);
      SiftMakesHeap(data[..][1 := value], 1);
      minValue := data[1];
      data[1] := value;
      assert data[..] == old(data[..])[1 := value];
      MinHeapify(1);
      assert data[0] == data[..][0];
    }

    method Clear()
      requires Valid()
      modifies data
      ensures Valid() && data[..] == Initial(data.Length - 1, initValue)
    {
      var i := 1;
      while i < data[0] + 1
        invariant 1 <= i <= data.Length && data[0] == data.Length - 1
        invariant forall k :: 1 <= k < i ==> data[k] == initValue
      {
        data[i] := initValue;
        i := i + 1;
      }
    }
  }

  // ----- Heap, from index 0

  function LeastChild(h: seq<int>, i: nat): nat
    requires i < |h|
  {
    var left, right := i * 2 + 1, i * 2 + 2;
    var m := if left < |h| && h[left] < h[i] then left else i;
    if right < |h| && h[right] < h[m] then right else m
  }

  lemma LeastChildIsMinChild(h: seq<int>, i: nat)
    requires i < |h|
    ensures LeastChild(h, i) + 1 == MinChild([|h|] + h, i + 1)
    ensures LeastChild(h, i) == i || i < LeastChild(h, i) < |h|
  {
  }

  /** shiftdown */
  function ShiftedDown(h: seq<int>, i: nat): (r: seq<int>)
    requires i < |h|
    ensures |r| == |h|
    decreases |h| - i
  {
    var k := LeastChild(h, i);
    if k == i then h else ShiftedDown(Swap(h, k, i), k)
  }

  /** It sifts as HeapSort does. */
  lemma {:induction false} ShiftDownIsSift(h: seq<int>, i: nat)
    requires i < |h|
    ensures [|h|] + ShiftedDown(h, i) == Sifted([|h|] + h, i + 1)
    decreases |h| - i
  {
    LeastChildIsMinChild(h, i);
    hide LeastChild, MinChild;
    var k := LeastChild(h, i);
    if k != i {
      assert [|h|] + Swap(h, k, i) == Swap([|h|] + h, i + 1, k + 1);
      ShiftDownIsSift(Swap(h, k, i), k);
    }
  }

  lemma ReplacedTop(h: seq<int>, v: int)
    requires h != [] && IsHeap([|h|] + h)
    ensures var r := ShiftedDown(h[0 := v], 0);
            && IsHeap([|h|] + r)
            && (v > h[0] ==> [|h|] + r == Offer([|h|] + h, v))
  {
    hide IsHeap, HeapBut, Sifted, ShiftedDown;
    var s := [|h|] + h;
    assert [|h|] + h[0 := v] == s[1 := v];
    RootMayBeLarge(s, v);
    ShiftDownIsSift(h[0 := v], 0);
    SiftMakesHeap(s[1 := v], 1);
  }

  class Heap {
    var heap: seq<int>

    ghost predicate Valid()
      reads this
    {
      IsHeap([|heap|] + heap)
    }

    constructor (size: nat)
      ensures Valid() && [size] + heap == Initial(size, 0)
    {
      heap := seq(size, _ => 0);
    }

    /** shiftdown, in place */
    method ShiftDown(index: nat)
      requires index < |heap|
      modifies this
      ensures heap == ShiftedDown(old(heap), index)
      decreases |heap| - index
    {
      var left := index * 2 + 1;
      var right := left + 1;
      if left >= |heap| {
        return;
      }
      var m := index;
      if left < |heap| && heap[left] < heap[m] {
        m := left;
      }
      if right < |heap| && heap[right] < heap[m] {
        m := right;
      }
      assert m == LeastChild(heap, index);
      if m != index {
        heap := heap[m := heap[index]][index := heap[m]];
        assert heap == Swap(old(heap), m, index);
        ShiftDown(m);
      }
    }

    method Top() returns (v: int)
      requires Valid()
      ensures heap == [] ==> v == 0
      ensures heap != [] ==> v == heap[0] && forall x :: x in heap ==> v <= x
    {
      v := if heap == [] then 0 else heap[0];
      if heap != [] {
        assert ([|heap|] + heap)[1..] == heap;
        forall x | x in heap ensures v <= x {
          HeapElements([|heap|] + heap, x);
        }
      }
    }

    method Clear()
      modifies this
      ensures heap == []
    {
      heap := [];
    }

    method Resize(size: nat)
      modifies this
      ensures size >= |old(heap)| ==> heap == old(heap) + seq(size - |old(heap)|, _ => 0)
      ensures size < |old(heap)| ==> heap == old(heap)[..size]
    {
      heap := if size >= |heap| then heap + seq(size - |heap|, _ => 0) else heap[..size];
    }

    /** A guarded replace_top keeps the largest, like Offer. */
    method ReplaceTop(v: int)
      requires Valid()
      modifies this
      ensures Valid() && |heap| == |old(heap)|
      ensures heap != [] && v > old(heap)[0] ==> [|heap|] + heap == Offer([|heap|] + old(heap), v)
    {
      if heap != [] {
        ReplacedTop(heap, v);
        hide IsHeap, Sifted, ShiftedDown;
        heap := heap[0 := v];
        ShiftDown(0);
      }
    }
  }

  // ----- The percentile of an instance's response times

  /** Samples in a window, and the size of the heap: the largest 1/10000 of it. */
  const TOTAL_COUNT: int := 1000000
  const HEAP_SIZE: int := 100

  class Quartile {
    const heap: HeapSort
    var totalCount: int
    var value: int
    var times: int
    var first: bool
    /** The samples of the window so far. */
    ghost var window: seq<int>

    ghost predicate Valid()
      reads this, heap.data
    {
      && heap.Valid() && heap.data.Length == HEAP_SIZE + 1
      && heap.data[..] == Offers(Initial(HEAP_SIZE, heap.initValue), window) && totalCount == |window|
    }

    constructor (value: int, times: int)
      ensures Valid() && window == [] && first && heap.initValue == 0
      ensures this.value == value && this.times == times
    {
      heap := new HeapSort(HEAP_SIZE, 0);
      totalCount, window, first, this.value, this.times := 0, [], true, value, times;
    }

    /** The sample joins the window. */
    method Record(time: int)
      requires Valid()
      modifies `totalCount, `window, heap.data
      ensures Valid() && window == old(window) + [time]
    {
      OneMoreOffer(Initial(HEAP_SIZE, heap.initValue), window, time);
      hide IsHeap, Sifted, Offers, Initial;
      totalCount := totalCount + 1;
      var least := heap.GetMinValue();
      if time > least {
        var _ := heap.HeapDown(time);
      }
      window := window + [time];
    }

    /** update_quartile_value: a full window's value is the 100th largest of its samples, and its ratio to
        the average latency is kept beside it.  `ok` is false where that average is 0 and the source
        divides by it. */
    method Update(time: int, avgLatency: int) returns (ok: bool)
      requires Valid()
      modifies this, heap.data
      ensures Valid() && (ok <==> |old(window)| < TOTAL_COUNT || avgLatency != 0)
      ensures |old(window)| < TOTAL_COUNT ==>
                window == old(window) + [time] && value == old(value) && times == old(times) && first == old(first)
      ensures |old(window)| >= TOTAL_COUNT ==>
                && KthLargest(Initial(HEAP_SIZE, heap.initValue)[1..] + (old(window) + [time]), HEAP_SIZE, value)
                && !first && (ok ==> window == [] && times == TruncDiv(value, avgLatency))
    {
      hide IsHeap, KthLargest, Sifted, Initial, TruncDiv;
      ok := true;
      Record(time);
      if totalCount > TOTAL_COUNT {
        RootOfWindow(HEAP_SIZE, heap.initValue, window);
        first := false;
        value := heap.GetMinValue();
        if avgLatency == 0 {
          return false;
        }
        times := TruncDiv(value, avgLatency);
        heap.Clear();
        totalCount := 0;
        window := [];
      }
    }
  }

  // ----- The percentiles of a statement

  /** The heap after a window of samples. */
  ghost predicate Holds(h: seq<int>, window: seq<int>) {
    |h| == HEAP_SIZE && [HEAP_SIZE] + h == Offers(Initial(HEAP_SIZE, 0), window)
  }

  lemma HoldsNothing(h: seq<int>)
    requires [HEAP_SIZE] + h == Initial(HEAP_SIZE, 0)
    ensures Holds(h, [])
  {
    assert |[HEAP_SIZE] + h| == HEAP_SIZE + 1;
  }

  lemma HoldsTop(h: seq<int>, window: seq<int>)
    requires Holds(h, window)
    ensures IsHeap([|h|] + h) && KthLargest(Initial(HEAP_SIZE, 0)[1..] + window, HEAP_SIZE, h[0])
  {
    var rest := StreamKeepsLargest(HEAP_SIZE, 0, window);
    RootOfWindow(HEAP_SIZE, 0, window);
    assert ([HEAP_SIZE] + h)[1] == h[0];
  }

  /** A full or running percentile: the 100th largest of the samples so far and 100 zeros. */
  ghost predicate Percentile(window: seq<int>, v: int) {
    KthLargest(Initial(HEAP_SIZE, 0)[1..] + window, HEAP_SIZE, v)
  }

  /** What the last full window left of a history: the sample that closes a window is in none. */
  ghost function Window(history: seq<int>): seq<int> {
    history[|history| - |history| % (TOTAL_COUNT + 1)..]
  }

  lemma NoWindow()
    ensures Window([]) == []
  {
  }

  lemma WindowGrows(history: seq<int>, x: int)
    ensures |Window(history)| == |history| % (TOTAL_COUNT + 1)
    ensures Window(history + [x]) == if |Window(history)| < TOTAL_COUNT then Window(history) + [x] else []
  {
    var n := |history| % (TOTAL_COUNT + 1);
    if n < TOTAL_COUNT {
      assert (|history| + 1) % (TOTAL_COUNT + 1) == n + 1;
    } else {
      assert (|history| + 1) % (TOTAL_COUNT + 1) == 0;
    }
  }

  /** The first 999 samples of all are answered with their maximum. */
  const EARLY: int := 1000

  class SqlStatistics {
    const latencyHeap: Heap
    const rowsHeap: Heap
    var latency9999: int
    var rows9999: int
    var latency: int
    var times: int
    var counter: int
    var first: bool
    /** All samples so far. */
    ghost var costs: seq<int>
    ghost var scans: seq<int>

    ghost predicate Valid()
      reads this, latencyHeap, rowsHeap
    {
      && latencyHeap != rowsHeap && |costs| == |scans| && counter == |Window(costs)| == |Window(scans)|
      && Holds(latencyHeap.heap, Window(costs)) && Holds(rowsHeap.heap, Window(scans))
    }

    constructor ()
      ensures Valid() && costs == [] && scans == [] && first && latency9999 == rows9999 == 0 && times == 20
    {
      hide Holds, IsHeap, Initial, Window;
      NoWindow();
      var h := new Heap(HEAP_SIZE);
      var r := new Heap(HEAP_SIZE);
      HoldsNothing(h.heap);
      HoldsNothing(r.heap);
      latencyHeap, rowsHeap := h, r;
      latency9999, rows9999, latency, times := 0, 0, 0, 20;
      counter, first, costs, scans := 0, true, [], [];
    }

    static method OfferTo(h: Heap, ghost window: seq<int>, x: int)
      requires Holds(h.heap, window)
      modifies h
      ensures Holds(h.heap, window + [x])
    {
      HoldsTop(h.heap, window);
      OneMoreOffer(Initial(HEAP_SIZE, 0), window, x);
      hide IsHeap, KthLargest, Sifted, Offers;
      var top := h.Top();
      if x > top {
        h.ReplaceTop(x);
      }
    }

    static method Reset(h: Heap)
      modifies h
      ensures Holds(h.heap, [])
    {
      hide Holds;
      h.Clear();
      h.Resize(HEAP_SIZE);
      HoldsNothing(h.heap);
    }

    static method TopOf(h: Heap, ghost window: seq<int>) returns (v: int)
      requires Holds(h.heap, window)
      ensures Percentile(window, v)
    {
      HoldsTop(h.heap, window);
      hide KthLargest;
      v := h.Top();
    }

    /** The sample that is one too many closes the window. */
    method CloseWindow()
      requires latencyHeap != rowsHeap && Holds(latencyHeap.heap, Window(costs)) && Holds(rowsHeap.heap, Window(scans))
      modifies this, latencyHeap, rowsHeap
      ensures counter == 0 && !first && latency == old(latency) && costs == old(costs) && scans == old(scans)
      ensures Holds(latencyHeap.heap, []) && Holds(rowsHeap.heap, [])
      ensures Percentile(Window(costs), latency9999) && Percentile(Window(scans), rows9999)
      ensures times == if latency > 0 then TruncDiv(latency9999, latency) + 1 else old(times)
    {
      hide Window, Holds, Percentile, TruncDiv;
      latency9999 := TopOf(latencyHeap, Window(costs));
      rows9999 := TopOf(rowsHeap, Window(scans));
      if latency > 0 {
        times := TruncDiv(latency9999, latency) + 1;
      }
      counter := 0;
      Reset(latencyHeap);
      Reset(rowsHeap);
      first := false;
    }

    /** In the first window an inexact answer is given at once. */
    method Guess(cost: int, scanRows: int)
      requires Holds(latencyHeap.heap, Window(costs)) && Holds(rowsHeap.heap, Window(scans))
      modifies this`latency9999, this`rows9999, this`times
      ensures counter < EARLY ==>
                latency9999 == Max(old(latency9999), cost) && rows9999 == Max(old(rows9999), scanRows)
      ensures counter >= EARLY ==> Percentile(Window(costs), latency9999) && Percentile(Window(scans), rows9999)
      ensures times == if latency > 0 then TruncDiv(latency9999, latency) + 1 else old(times)
    {
      hide Window, Holds, Percentile, TruncDiv;
      if counter < EARLY {
        latency9999, rows9999 := Max(latency9999, cost), Max(rows9999, scanRows);
      } else {
        latency9999 := TopOf(latencyHeap, Window(costs));
        rows9999 := TopOf(rowsHeap, Window(scans));
      }
      if latency > 0 {
        times := TruncDiv(latency9999, latency) + 1;
      }
    }

    /** update */
    method Update(cost: int, scanRows: int)
      requires Valid()
      modifies this, latencyHeap, rowsHeap
      ensures Valid() && latency == old(latency)
      ensures costs == old(costs) + [cost] && scans == old(scans) + [scanRows]
      ensures |Window(old(costs))| == TOTAL_COUNT ==>
                !first && Percentile(Window(old(costs)), latency9999) && Percentile(Window(old(scans)), rows9999)
      ensures |Window(old(costs))| < TOTAL_COUNT ==>
                && first == old(first)
                && (!first ==> latency9999 == old(latency9999) && rows9999 == old(rows9999))
                && (first && |Window(costs)| < EARLY ==>
                      latency9999 == Max(old(latency9999), cost) && rows9999 == Max(old(rows9999), scanRows))
                && (first && |Window(costs)| >= EARLY ==>
                      Percentile(Window(old(costs)), latency9999) && Percentile(Window(old(scans)), rows9999))
      ensures times == if (old(first) || |Window(old(costs))| == TOTAL_COUNT) && latency > 0
                       then TruncDiv(latency9999, latency) + 1 else old(times)
    {
      hide Window, Holds, Percentile, TruncDiv;
      WindowGrows(costs, cost);
      WindowGrows(scans, scanRows);
      counter := counter + 1;
      if counter > TOTAL_COUNT {
        CloseWindow();
      } else {
        if first {
          Guess(cost, scanRows);
        }
        OfferTo(latencyHeap, Window(costs), cost);
        OfferTo(rowsHeap, Window(scans), scanRows);
      }
      costs, scans := costs + [cost], scans + [scanRows];
    }
  }
}
