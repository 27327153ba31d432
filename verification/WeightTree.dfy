/** The implicit binary tree behind locality-aware selection.

    Instance i has children 2i+1 and 2i+2.  Every instance caches in `left` the sum of the
    weights in its left subtree, and selection walks down the tree with a random dice.
    This module is the mathematics of that tree: subtree sums, what one weight change or one
    appended instance does to them, and what the walk computes. */
module WeightTree {
  import opened Arithmetic

  /** Sum of the weights in the subtree rooted at `j`. */
  ghost function SubtreeSum(w: seq<int>, j: nat): int
    decreases if j < |w| then |w| - j else 0
  {
    if j >= |w| then 0 else SubtreeSum(w, 2 * j + 1) + w[j] + SubtreeSum(w, 2 * j + 2)
  }

  /** `i` lies in the subtree rooted at `root`, found by climbing parent links from `i`. */
  predicate InSubtree(root: nat, i: nat) {
    i == root || (i > root && InSubtree(root, (i - 1) / 2))
  }

  ghost function Sum(w: seq<int>): int {
    SumTo(w, |w|)
  }

  /** Sum of the first n weights. */
  ghost function SumTo(w: seq<int>, n: nat): int
    requires n <= |w|
  {
    if n == 0 then 0 else SumTo(w, n - 1) + w[n - 1]
  }

  lemma {:induction false} SumToAppend(w: seq<int>, v: int, n: nat)
    requires n <= |w|
    ensures SumTo(w + [v], n) == SumTo(w, n)
  {
    if n > 0 {
      SumToAppend(w, v, n - 1);
    }
  }

  lemma SumAppend(w: seq<int>, v: int)
    ensures Sum(w + [v]) == Sum(w) + v
  {
    SumToAppend(w, v, |w|);
  }

  /** Below its root, a subtree is the disjoint union of its two child subtrees. */
  lemma {:induction false} SubtreeSplit(j: nat, i: nat)
    ensures InSubtree(j, i) <==> i == j || InSubtree(2 * j + 1, i) || InSubtree(2 * j + 2, i)
    ensures !(InSubtree(2 * j + 1, i) && InSubtree(2 * j + 2, i))
    ensures InSubtree(2 * j + 1, i) || InSubtree(2 * j + 2, i) ==> i > j
    decreases i
  {
    if i > 0 {
      SubtreeSplit(j, (i - 1) / 2);
    }
  }

  lemma {:induction false} RootCoversAll(i: nat)
    ensures InSubtree(0, i)
  {
    if i > 0 {
      RootCoversAll((i - 1) / 2);
    }
  }

  /** One changed weight moves exactly the sums of the subtrees holding it, by the difference. */
  lemma {:induction false} SumAfterChange(w: seq<int>, i: nat, v: int, j: nat)
    requires i < |w|
    ensures SubtreeSum(w[i := v], j) == SubtreeSum(w, j) + if InSubtree(j, i) then v - w[i] else 0
    decreases if j < |w| then |w| - j else 0
  {
    SubtreeSplit(j, i);
    if j < |w| {
      SumAfterChange(w, i, v, 2 * j + 1);
      SumAfterChange(w, i, v, 2 * j + 2);
    }
  }

  /** An appended instance is a new leaf: it adds its weight to the subtrees above it only. */
  lemma {:induction false} SumAfterAppend(w: seq<int>, v: int, j: nat)
    ensures SubtreeSum(w + [v], j) == SubtreeSum(w, j) + if InSubtree(j, |w|) then v else 0
    decreases if j <= |w| then |w| + 1 - j else 0
  {
    SubtreeSplit(j, |w|);
    if j < |w| {
      SumAfterAppend(w, v, 2 * j + 1);
      SumAfterAppend(w, v, 2 * j + 2);
    } else if j == |w| {
      assert SubtreeSum(w + [v], 2 * j + 1) == 0 == SubtreeSum(w + [v], 2 * j + 2);
    }
  }

  lemma {:induction false} RootSumIsTotal(w: seq<int>)
    ensures SubtreeSum(w, 0) == Sum(w)
  {
    if w != [] {
      var v := w[..|w| - 1];
      RootSumIsTotal(v);
      assert v + [w[|w| - 1]] == w;
      SumAppend(v, w[|w| - 1]);
      SumAfterAppend(v, w[|w| - 1], 0);
      RootCoversAll(|v|);
    }
  }

  lemma {:induction false} SubtreeSumNonNegative(w: seq<int>, j: nat)
    requires forall k :: 0 <= k < |w| ==> w[k] >= 0
    ensures SubtreeSum(w, j) >= 0
    decreases if j < |w| then |w| - j else 0
  {
    if j < |w| {
      SubtreeSumNonNegative(w, 2 * j + 1);
      SubtreeSumNonNegative(w, 2 * j + 2);
    }
  }

  // ----- The walk

  /** Where a walk ends: at an instance, with the dice measured from the start of that
      instance's own interval, or below the tree. */
  datatype Pick = Hit(index: nat, offset: int) | FellOff

  /** The cache of node j agrees with the weights. */
  ghost predicate ExactAt(w: seq<int>, left: seq<int>, j: nat)
    requires j < |left|
  {
    left[j] == SubtreeSum(w, 2 * j + 1)
  }

  ghost predicate Exact(w: seq<int>, left: seq<int>) {
    && |left| == |w|
    && forall j {:trigger ExactAt(w, left, j)} :: 0 <= j < |w| ==> ExactAt(w, left, j)
  }

  ghost predicate NonNegative(w: seq<int>) {
    forall k :: 0 <= k < |w| ==> w[k] >= 0
  }

  /** The walk of the source, from node `j`, over cached left sums that may be stale. */
  function Walk(w: seq<int>, left: seq<int>, j: nat, dice: int): Pick
    requires |left| == |w| && j < |w|
    decreases |w| - j
  {
    if dice < left[j] then
      if 2 * j + 1 < |w| then Walk(w, left, 2 * j + 1, dice) else FellOff
    else if dice >= left[j] + w[j] then
      if 2 * j + 2 < |w| then Walk(w, left, 2 * j + 2, dice - left[j] - w[j]) else FellOff
    else Hit(j, dice - left[j])
  }

  /** How many nodes the walk visits. */
  function WalkSteps(w: seq<int>, left: seq<int>, j: nat, dice: int): nat
    requires |left| == |w| && j < |w|
    decreases |w| - j
  {
    if dice < left[j] then
      if 2 * j + 1 < |w| then 1 + WalkSteps(w, left, 2 * j + 1, dice) else 1
    else if dice >= left[j] + w[j] then
      if 2 * j + 2 < |w| then 1 + WalkSteps(w, left, 2 * j + 2, dice - left[j] - w[j]) else 1
    else 1
  }

  // ----- Reference: lay the weights out in symmetric order and scan

  function InOrder(n: nat, j: nat): (order: seq<nat>)
    decreases if j < n then n - j else 0
  {
    if j >= n then [] else InOrder(n, 2 * j + 1) + [j] + InOrder(n, 2 * j + 2)
  }

  ghost function SumOf(w: seq<int>, order: seq<nat>): int
    requires forall k :: 0 <= k < |order| ==> order[k] < |w|
  {
    if order == [] then 0 else w[order[0]] + SumOf(w, order[1..])
  }

  /** Roulette-wheel selection over an explicit list: the first entry whose interval holds dice. */
  ghost function Scan(w: seq<int>, order: seq<nat>, dice: int): Pick
    requires forall k :: 0 <= k < |order| ==> order[k] < |w|
  {
    if order == [] then FellOff
    else if dice < w[order[0]] then Hit(order[0], dice)
    else Scan(w, order[1..], dice - w[order[0]])
  }

  lemma {:induction false} InOrderIsSubtree(n: nat, j: nat, i: nat)
    ensures i in InOrder(n, j) <==> i < n && InSubtree(j, i)
    decreases if j < n then n - j else 0
  {
    SubtreeSplit(j, i);
    if j < n {
      InOrderIsSubtree(n, 2 * j + 1, i);
      InOrderIsSubtree(n, 2 * j + 2, i);
    }
  }

  lemma {:induction false} InOrderBounded(n: nat, j: nat)
    ensures forall k :: 0 <= k < |InOrder(n, j)| ==> InOrder(n, j)[k] < n
  {
    var order := InOrder(n, j);
    forall k | 0 <= k < |order| ensures order[k] < n {
      assert order[k] in order;
      InOrderIsSubtree(n, j, order[k]);
    }
  }

  /** Lists without common elements, joined around one that is in neither. */
  lemma DistinctAround(l: seq<nat>, j: nat, r: seq<nat>)
    requires forall a, b :: 0 <= a < b < |l| ==> l[a] != l[b]
    requires forall a, b :: 0 <= a < b < |r| ==> r[a] != r[b]
    requires j !in l && j !in r && forall x :: x in l ==> x !in r
    ensures var s := l + [j] + r; forall a, b :: 0 <= a < b < |s| ==> s[a] != s[b]
  {
    var s := l + [j] + r;
    forall a, b | 0 <= a < b < |s| ensures s[a] != s[b] {
      assert s[a] == if a < |l| then l[a] else if a == |l| then j else r[a - |l| - 1];
      assert s[b] == if b < |l| then l[b] else if b == |l| then j else r[b - |l| - 1];
      assert a < |l| ==> s[a] in l;
      assert b > |l| ==> s[b] in r;
    }
  }

  /** No index is listed twice. */
  lemma {:induction false} InOrderDistinct(n: nat, j: nat)
    ensures forall a, b :: 0 <= a < b < |InOrder(n, j)| ==> InOrder(n, j)[a] != InOrder(n, j)[b]
    decreases if j < n then n - j else 0
  {
    if j < n {
      InOrderDistinct(n, 2 * j + 1);
      InOrderDistinct(n, 2 * j + 2);
      SubtreeSplit(j, j);
      InOrderIsSubtree(n, 2 * j + 1, j);
      InOrderIsSubtree(n, 2 * j + 2, j);
      var l, r := InOrder(n, 2 * j + 1), InOrder(n, 2 * j + 2);
      forall x | x in l ensures x !in r {
        SubtreeSplit(j, x);
        InOrderIsSubtree(n, 2 * j + 1, x);
        InOrderIsSubtree(n, 2 * j + 2, x);
      }
      DistinctAround(l, j, r);
    }
  }

  lemma {:induction false} SumOfAppend(w: seq<int>, a: seq<nat>, b: seq<nat>)
    requires forall k :: 0 <= k < |a| ==> a[k] < |w|
    requires forall k :: 0 <= k < |b| ==> b[k] < |w|
    ensures SumOf(w, a + b) == SumOf(w, a) + SumOf(w, b)
  {
    if a == [] {
      assert a + b == b;
    } else {
      assert (a + b)[1..] == a[1..] + b;
      SumOfAppend(w, a[1..], b);
    }
  }

  /** Scanning a concatenation scans the first list for small dice, else the second. */
  lemma {:induction false} ScanAppend(w: seq<int>, a: seq<nat>, b: seq<nat>, dice: int)
    requires NonNegative(w) && dice >= 0
    requires forall k :: 0 <= k < |a| ==> a[k] < |w|
    requires forall k :: 0 <= k < |b| ==> b[k] < |w|
    ensures SumOf(w, a) >= 0
    ensures Scan(w, a + b, dice) == if dice < SumOf(w, a) then Scan(w, a, dice)
                                    else Scan(w, b, dice - SumOf(w, a))
  {
    if a == [] {
      assert a + b == b;
    } else {
      assert (a + b)[1..] == a[1..] + b;
      if dice < w[a[0]] {
        ScanAppend(w, a[1..], b, 0);
      } else {
        ScanAppend(w, a[1..], b, dice - w[a[0]]);
      }
    }
  }

  lemma {:induction false} SubtreeSumIsSumOf(w: seq<int>, j: nat)
    ensures forall k :: 0 <= k < |InOrder(|w|, j)| ==> InOrder(|w|, j)[k] < |w|
    ensures SubtreeSum(w, j) == SumOf(w, InOrder(|w|, j))
    decreases if j < |w| then |w| - j else 0
  {
    InOrderBounded(|w|, j);
    if j < |w| {
      var l, r := InOrder(|w|, 2 * j + 1), InOrder(|w|, 2 * j + 2);
      SubtreeSumIsSumOf(w, 2 * j + 1);
      SubtreeSumIsSumOf(w, 2 * j + 2);
      SumOfAppend(w, l, [j]);
      SumOfAppend(w, l + [j], r);
    }
  }

  /** With exact caches the tree walk is the linear scan of the symmetric-order layout. */
  lemma {:induction false} WalkIsScan(w: seq<int>, left: seq<int>, j: nat, dice: int)
    requires NonNegative(w) && Exact(w, left) && j < |w|
    requires 0 <= dice < SubtreeSum(w, j)
    ensures forall k :: 0 <= k < |InOrder(|w|, j)| ==> InOrder(|w|, j)[k] < |w|
    ensures Walk(w, left, j, dice) == Scan(w, InOrder(|w|, j), dice)
    decreases |w| - j
  {
    var l, r := InOrder(|w|, 2 * j + 1), InOrder(|w|, 2 * j + 2);
    InOrderBounded(|w|, j);
    InOrderBounded(|w|, 2 * j + 1);
    InOrderBounded(|w|, 2 * j + 2);
    SubtreeSumIsSumOf(w, 2 * j + 1);
    SumOfAppend(w, l, [j]);
    ScanAppend(w, l + [j], r, dice);
    ScanAppend(w, l, [j], dice);
    assert ExactAt(w, left, j);
    if dice < left[j] {
      WalkIsScan(w, left, 2 * j + 1, dice);
    } else if dice >= left[j] + w[j] {
      WalkIsScan(w, left, 2 * j + 2, dice - left[j] - w[j]);
    }
  }

  /** A scan with dice below the total stops inside an interval of the list. */
  lemma {:induction false} ScanHits(w: seq<int>, order: seq<nat>, dice: int)
    requires NonNegative(w)
    requires forall k :: 0 <= k < |order| ==> order[k] < |w|
    requires 0 <= dice < SumOf(w, order)
    ensures Scan(w, order, dice).Hit?
    ensures Scan(w, order, dice).index in order && 0 <= Scan(w, order, dice).offset < w[Scan(w, order, dice).index]
  {
    if order != [] && dice >= w[order[0]] {
      ScanHits(w, order[1..], dice - w[order[0]]);
    }
  }

  /** Every dice below the total walks to an instance of positive weight, without leaving the
      index range, and lands inside that instance's own interval. */
  lemma WalkLandsOnInstance(w: seq<int>, left: seq<int>, dice: int)
    requires NonNegative(w) && Exact(w, left) && w != []
    requires 0 <= dice < Sum(w)
    ensures var p := Walk(w, left, 0, dice);
            p.Hit? && p.index < |w| && 0 <= p.offset < w[p.index]
  {
    RootSumIsTotal(w);
    WalkIsScan(w, left, 0, dice);
    SubtreeSumIsSumOf(w, 0);
    ScanHits(w, InOrder(|w|, 0), dice);
  }

  /** Adding one difference to every cache whose left subtree holds the changed instance keeps
      all caches exact. */
  lemma ExactAfterChange(w: seq<int>, left: seq<int>, i: nat, v: int, left': seq<int>)
    requires Exact(w, left) && i < |w| && |left'| == |left|
    requires forall j :: 0 <= j < |left| ==>
               left'[j] == left[j] + if InSubtree(2 * j + 1, i) then v - w[i] else 0
    ensures Exact(w[i := v], left') && Sum(w[i := v]) == Sum(w) + v - w[i]
  {
    var w' := w[i := v];
    forall j | 0 <= j < |w| ensures ExactAt(w', left', j) {
      assert ExactAt(w, left, j);
      SumAfterChange(w, i, v, 2 * j + 1);
    }
    SumAfterChange(w, i, v, 0);
    RootCoversAll(i);
    RootSumIsTotal(w);
    RootSumIsTotal(w[i := v]);
  }

  /** A joining instance of weight 0 is a leaf that no cache has to hear of. */
  lemma ExactAfterAppend(w: seq<int>, left: seq<int>)
    requires Exact(w, left)
    ensures Exact(w + [0], left + [0]) && Sum(w + [0]) == Sum(w)
  {
    forall j | 0 <= j <= |w| ensures ExactAt(w + [0], left + [0], j) {
      SumAfterAppend(w, 0, 2 * j + 1);
      if j < |w| {
        assert ExactAt(w, left, j);
      }
    }
    SumAppend(w, 0);
  }

  // ----- Fairness

  /** Sum of the weights laid out before instance `k`. */
  ghost function Start(w: seq<int>, order: seq<nat>, k: nat): int
    requires forall p :: 0 <= p < |order| ==> order[p] < |w|
  {
    if order == [] || order[0] == k then 0 else w[order[0]] + Start(w, order[1..], k)
  }

  lemma {:induction false} ScanHitsInterval(w: seq<int>, order: seq<nat>, dice: int, k: nat)
    requires NonNegative(w) && k < |w|
    requires forall p :: 0 <= p < |order| ==> order[p] < |w|
    requires forall a, b :: 0 <= a < b < |order| ==> order[a] != order[b]
    requires k in order && dice >= 0
    ensures 0 <= Start(w, order, k)
    ensures Start(w, order, k) + w[k] <= SumOf(w, order)
    ensures (Scan(w, order, dice).Hit? && Scan(w, order, dice).index == k)
            <==> Start(w, order, k) <= dice < Start(w, order, k) + w[k]
  {
    SumOfNonNegative(w, order[1..]);
    if order[0] == k {
      if dice >= w[k] && Scan(w, order, dice).Hit? {
        ScanStaysInList(w, order[1..], dice - w[k]);
      }
    } else {
      assert k in order[1..];
      ScanHitsInterval(w, order[1..], if dice < w[order[0]] then 0 else dice - w[order[0]], k);
    }
  }

  lemma {:induction false} SumOfNonNegative(w: seq<int>, order: seq<nat>)
    requires NonNegative(w)
    requires forall p :: 0 <= p < |order| ==> order[p] < |w|
    ensures SumOf(w, order) >= 0
  {
    if order != [] {
      SumOfNonNegative(w, order[1..]);
    }
  }

  lemma {:induction false} ScanStaysInList(w: seq<int>, order: seq<nat>, dice: int)
    requires forall p :: 0 <= p < |order| ==> order[p] < |w|
    ensures Scan(w, order, dice).Hit? ==> Scan(w, order, dice).index in order
  {
    if order != [] && dice >= w[order[0]] {
      ScanStaysInList(w, order[1..], dice - w[order[0]]);
    }
  }

  /** The integers in [lo, hi), as many as the interval is long. */
  ghost function Interval(lo: int, hi: int): (s: set<int>)
    ensures forall d :: d in s <==> lo <= d < hi
    ensures lo <= hi ==> |s| == hi - lo
    decreases hi - lo
  {
    if lo >= hi then {} else Interval(lo, hi - 1) + {hi - 1}
  }

  /** The dice values in [0, total) that select instance `k`. */
  ghost function DiceFor(w: seq<int>, left: seq<int>, k: nat): set<int>
    requires |left| == |w| && w != []
  {
    set d: int | 0 <= d < Sum(w) && Walk(w, left, 0, d).Hit? && Walk(w, left, 0, d).index == k
  }

  /** The dice falls into the interval of instance `k` when the weights are laid out in symmetric
      order. */
  ghost predicate Owns(w: seq<int>, k: nat, dice: int)
    requires k < |w|
  {
    InOrderBounded(|w|, 0);
    var start := Start(w, InOrder(|w|, 0), k);
    start <= dice < start + w[k]
  }

  /** The walk ends at the instance that owns the dice. */
  lemma WalkFindsOwner(w: seq<int>, left: seq<int>, dice: int, k: nat)
    requires NonNegative(w) && Exact(w, left) && k < |w| && 0 <= dice < Sum(w)
    ensures Walk(w, left, 0, dice).Hit? && Walk(w, left, 0, dice).index == k <==> Owns(w, k, dice)
  {
    var order := InOrder(|w|, 0);
    RootSumIsTotal(w);
    SubtreeSumIsSumOf(w, 0);
    InOrderDistinct(|w|, 0);
    RootCoversAll(k);
    InOrderIsSubtree(|w|, 0, k);
    WalkIsScan(w, left, 0, dice);
    ScanHitsInterval(w, order, dice, k);
  }

  /** Selection is proportional: instance `k` owns exactly w[k] of the Sum(w) dice values. */
  lemma EachInstanceOwnsItsWeight(w: seq<int>, left: seq<int>, k: nat)
    requires NonNegative(w) && Exact(w, left) && k < |w|
    ensures |DiceFor(w, left, k)| == w[k]
    ensures forall d :: d in DiceFor(w, left, k) <==> Owns(w, k, d)
  {
    var order := InOrder(|w|, 0);
    RootSumIsTotal(w);
    SubtreeSumIsSumOf(w, 0);
    InOrderDistinct(|w|, 0);
    RootCoversAll(k);
    InOrderIsSubtree(|w|, 0, k);
    ScanHitsInterval(w, order, 0, k);
    var s := Start(w, order, k);
    forall d ensures d in DiceFor(w, left, k) <==> s <= d < s + w[k] {
      if 0 <= d < Sum(w) {
        WalkFindsOwner(w, left, d, k);
      }
    }
    assert DiceFor(w, left, k) == Interval(s, s + w[k]);
  }

  // ----- Length of the walk

  /** Levels of the tree below and including `j`, along the leftmost path. */
  function Height(n: nat, j: nat): nat
    decreases if j < n then n - j else 0
  {
    if j >= n then 0 else 1 + Height(n, 2 * j + 1)
  }

  lemma {:induction false} HeightMonotone(n: nat, a: nat, b: nat)
    requires a <= b
    ensures Height(n, b) <= Height(n, a)
    decreases if a < n then n - a else 0
  {
    if a < n && b < n {
      HeightMonotone(n, 2 * a + 1, 2 * b + 1);
    }
  }

  /** Stale or not, a walk visits at most one node per level. */
  lemma {:induction false} WalkIsShort(w: seq<int>, left: seq<int>, j: nat, dice: int)
    requires |left| == |w| && j < |w|
    ensures WalkSteps(w, left, j, dice) <= Height(|w|, j)
    decreases |w| - j
  {
    if dice < left[j] {
      if 2 * j + 1 < |w| { WalkIsShort(w, left, 2 * j + 1, dice); }
    } else if dice >= left[j] + w[j] {
      if 2 * j + 2 < |w| { WalkIsShort(w, left, 2 * j + 2, dice - left[j] - w[j]); }
      HeightMonotone(|w|, 2 * j + 1, 2 * j + 2);
    }
  }

  /** A node within (j+1)*2^k - 1 of the end has at most k levels: depth is logarithmic. */
  lemma {:induction false} HeightIsLogarithmic(n: nat, j: nat, k: nat)
    requires n < (j + 1) * Pow2(k)
    ensures Height(n, j) <= k
    decreases k
  {
    if j < n {
      if k == 0 {
        assert false;
      } else {
        assert (2 * j + 1 + 1) * Pow2(k - 1) == (j + 1) * (2 * Pow2(k - 1));
        HeightIsLogarithmic(n, 2 * j + 1, k - 1);
      }
    }
  }

  /** The source gives up after visiting 50 nodes; one walk never needs that many below 2^50
      instances. */
  lemma WalkEndsWithinLoopLimit(w: seq<int>, left: seq<int>, dice: int)
    requires |left| == |w| && 0 < |w| < Pow2(50)
    ensures WalkSteps(w, left, 0, dice) <= 50
  {
    WalkIsShort(w, left, 0, dice);
    HeightIsLogarithmic(|w|, 0, 50);
  }
}
