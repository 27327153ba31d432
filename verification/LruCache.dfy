/** The least-recently-used cache: a map into the nodes of an intrusive doubly linked list that is
    kept in order of use.  It is proved against the sequence of its key/value pairs. */
module LruCache {
  import opened Options

  // ----- The cache as a sequence, least recently used first

  /** The pairs with other keys. */
  function Without<K(==), V>(s: seq<(K, V)>, k: K): (r: seq<(K, V)>)
    ensures |r| <= |s|
  {
    if s == [] then [] else (if s[0].0 == k then [] else [s[0]]) + Without(s[1..], k)
  }

  function Lookup<K(==), V>(s: seq<(K, V)>, k: K): Option<V> {
    if s == [] then None else if s[0].0 == k then Some(s[0].1) else Lookup(s[1..], k)
  }

  /** A used pair goes to the end. */
  function Touched<K(==), V>(s: seq<(K, V)>, k: K): seq<(K, V)> {
    match Lookup(s, k)
    case None => s
    case Some(v) => Without(s, k) + [(k, v)]
  }

  /** How many of n pairs stay when another is added. */
  function Room(n: nat, threshold: int): (m: nat)
    ensures m <= n && m + 1 <= (if threshold - 1 > 1 then threshold - 1 else 1)
  {
    if threshold <= 2 then 0 else if n <= threshold - 2 then n else threshold - 2
  }

  /** The added pair at the end, behind the most recently used others that there is room for. */
  function Added<K(==), V>(s: seq<(K, V)>, k: K, v: V, threshold: int): (r: seq<(K, V)>)
    ensures |r| <= if threshold - 1 > 1 then threshold - 1 else 1
  {
    var others := Without(s, k);
    others[|others| - Room(|others|, threshold)..] + [(k, v)]
  }

  predicate DistinctKeys<K(==), V>(s: seq<(K, V)>) {
    forall i, j :: 0 <= i < j < |s| ==> s[i].0 != s[j].0
  }

  // ----- The list

  class Node<K(0), V(0)> {
    var key: K
    var value: V
    var prev: Node?<K, V>
    var next: Node?<K, V>

    constructor () {
      prev, next := null, null;
    }
  }

  /** The nodes, each once, not the root. */
  predicate Simple<K(0), V(0)>(root: Node<K, V>, order: seq<Node<K, V>>) {
    root !in order && Distinct(order)
  }

  /** Node i of the circle that starts and ends at the root. */
  function Ring<K(0), V(0)>(root: Node<K, V>, order: seq<Node<K, V>>, i: int): Node<K, V> {
    if 0 < i <= |order| then order[i - 1] else root
  }

  /** Neighbours on the circle point at each other. */
  ghost predicate Linked<K(0), V(0)>(root: Node<K, V>, order: seq<Node<K, V>>)
    reads root, order
  {
    forall i :: 0 <= i <= |order| ==>
      && Ring(root, order, i).next == Ring(root, order, i + 1)
      && Ring(root, order, i + 1).prev == Ring(root, order, i)
  }

  /** LinkNode::RemoveFromList */
  method RemoveFromList<K(0), V(0)>(node: Node<K, V>, ghost root: Node<K, V>, ghost order: seq<Node<K, V>>, ghost k: nat)
    requires Simple(root, order) && Linked(root, order) && k < |order| && order[k] == node
    modifies root`next, root`prev, order`next, order`prev
    ensures Linked(root, RemoveAt(order, k))
  {
    ghost var rest := RemoveAt(order, k);
    assert Ring(root, order, k + 1) == node;
    assert node.prev == Ring(root, order, k) && node.next == Ring(root, order, k + 2);
    node.prev.next := node.next;
    node.next.prev := node.prev;
    node.next := null;
    node.prev := null;
    forall i | 0 <= i <= |rest|
      ensures Ring(root, rest, i).next == Ring(root, rest, i + 1)
      ensures Ring(root, rest, i + 1).prev == Ring(root, rest, i)
    {
      assert old(Ring(root, order, i).next) == Ring(root, order, i + 1);
      assert old(Ring(root, order, i + 1).next) == Ring(root, order, i + 2);
    }
  }

  /** LinkedList::Append */
  method Append<K(0), V(0)>(node: Node<K, V>, root: Node<K, V>, ghost order: seq<Node<K, V>>)
    requires Simple(root, order) && Linked(root, order) && node != root && node !in order
    modifies root`next, root`prev, order`next, node`next, node`prev
    ensures Linked(root, order + [node])
  {
    assert Ring(root, order, |order| + 1) == root && root.prev == Ring(root, order, |order|);
    node.next := root;
    node.prev := root.prev;
    root.prev.next := node;
    root.prev := node;
    ghost var all := order + [node];
    forall i | 0 <= i <= |all|
      ensures Ring(root, all, i).next == Ring(root, all, i + 1)
      ensures Ring(root, all, i + 1).prev == Ring(root, all, i)
    {
      if i <= |order| {
        assert old(Ring(root, order, i).next) == Ring(root, order, i + 1);
      }
    }
  }

  // ----- Map, list and pairs

  function RemoveAt<T>(s: seq<T>, i: nat): (r: seq<T>)
    requires i < |s|
    ensures |r| == |s| - 1
    ensures forall j :: 0 <= j < i ==> r[j] == s[j]
    ensures forall j :: i <= j < |r| ==> r[j] == s[j + 1]
  {
    s[..i] + s[i + 1..]
  }

  predicate HasKey<K(==), V>(s: seq<(K, V)>, k: K) {
    exists i :: 0 <= i < |s| && s[i].0 == k
  }

  /** The map leads from the key of each pair to its node, and has no other keys. */
  predicate Indexes<K, V, N(==)>(m: map<K, N>, order: seq<N>, pairs: seq<(K, V)>) {
    && |m| == |order| == |pairs|
    && (forall i :: 0 <= i < |pairs| ==> pairs[i].0 in m && m[pairs[i].0] == order[i])
    && (forall k :: k in m ==> HasKey(pairs, k))
  }

  predicate Distinct<N(==)>(order: seq<N>) {
    forall i, j :: 0 <= i < j < |order| ==> order[i] != order[j]
  }

  lemma {:induction false} WithoutAt<K, V>(s: seq<(K, V)>, i: nat)
    requires DistinctKeys(s) && i < |s|
    ensures Without(s, s[i].0) == RemoveAt(s, i) && Lookup(s, s[i].0) == Some(s[i].1)
  {
    RemoveAtBehind(s, i);
    hide RemoveAt;
    if i == 0 {
      WithoutAbsent(s[1..], s[0].0);
    } else {
      WithoutAt(s[1..], i - 1);
    }
  }

  lemma RemoveAtBehind<T>(s: seq<T>, i: nat)
    requires i < |s|
    ensures RemoveAt(s, i) == if i == 0 then s[1..] else [s[0]] + RemoveAt(s[1..], i - 1)
  {
    if i > 0 {
      assert s[..i] == [s[0]] + s[1..][..i - 1] && s[i + 1..] == s[1..][i..];
    }
  }

  lemma {:induction false} WithoutAbsent<K, V>(s: seq<(K, V)>, k: K)
    requires forall i :: 0 <= i < |s| ==> s[i].0 != k
    ensures Without(s, k) == s && Lookup(s, k) == None
  {
    if s != [] {
      WithoutAbsent(s[1..], k);
    }
  }

  /** The map knows where a key's pair is. */
  lemma Locate<K, V, N>(m: map<K, N>, order: seq<N>, pairs: seq<(K, V)>, k: K) returns (i: nat)
    requires Distinct(order) && Indexes(m, order, pairs) && k in m
    ensures i < |order| && order[i] == m[k] && pairs[i].0 == k
    ensures Without(pairs, k) == RemoveAt(pairs, i) && Lookup(pairs, k) == Some(pairs[i].1)
  {
    assert HasKey(pairs, k);
    i :| 0 <= i < |pairs| && pairs[i].0 == k;
    WithoutAt(pairs, i);
  }

  lemma Missing<K, V, N>(m: map<K, N>, order: seq<N>, pairs: seq<(K, V)>, k: K)
    requires Indexes(m, order, pairs) && k !in m
    ensures Without(pairs, k) == pairs && Lookup(pairs, k) == None
  {
    WithoutAbsent(pairs, k);
  }

  lemma Minus<K, N>(m: map<K, N>, a: K, b: K)
    ensures m - {a} - {b} == m - {b} - {a}
    ensures a in m && a != b ==> a in m - {b} && (m - {b})[a] == m[a]
  {
  }

  lemma EvictedIndexes<K, V, N>(m: map<K, N>, k: K, order: seq<N>, pairs: seq<(K, V)>)
    requires k in m && Distinct(order) && Indexes(m - {k}, order, pairs) && order != []
    ensures RemoveAt(order, 0) == order[1..] && RemoveAt(pairs, 0) == pairs[1..]
    ensures var n := m - {pairs[0].0}; k in n && n[k] == m[k] && Indexes(n - {k}, order[1..], pairs[1..])
  {
    IndexesAfterRemoving(m - {k}, order, pairs, 0);
    hide Indexes, Distinct, DistinctKeys;
    Minus(m, k, pairs[0].0);
  }

  /** Taking a node out of map and list. */
  lemma IndexesAfterRemoving<K, V, N>(m: map<K, N>, order: seq<N>, pairs: seq<(K, V)>, i: nat)
    requires DistinctKeys(pairs) && Indexes(m, order, pairs) && i < |order|
    ensures Indexes(m - {pairs[i].0}, RemoveAt(order, i), RemoveAt(pairs, i))
  {
    var k, n, rest := pairs[i].0, m - {pairs[i].0}, RemoveAt(pairs, i);
    assert |n| == |rest| by {
      assert n.Keys == m.Keys - {k};
    }
    forall x | x in n ensures HasKey(rest, x) {
      assert HasKey(pairs, x);
      KeyRemains(pairs, i, x);
    }
    forall j | 0 <= j < |rest| ensures rest[j].0 in n && n[rest[j].0] == RemoveAt(order, i)[j] {
      var was := if j < i then j else j + 1;
      assert rest[j] == pairs[was] && RemoveAt(order, i)[j] == order[was];
    }
  }

  lemma KeyRemains<K, V>(pairs: seq<(K, V)>, i: nat, x: K)
    requires i < |pairs| && HasKey(pairs, x) && pairs[i].0 != x
    ensures HasKey(RemoveAt(pairs, i), x)
  {
    var j :| 0 <= j < |pairs| && pairs[j].0 == x;
    assert RemoveAt(pairs, i)[if j < i then j else j - 1].0 == x;
  }

  /** Putting a node into the map and at the end of the list. */
  lemma IndexesAfterAppending<K, V, N>(m: map<K, N>, order: seq<N>, pairs: seq<(K, V)>, k: K, v: V, node: N)
    requires Indexes(m, order, pairs) && k !in m
    ensures Indexes(m[k := node], order + [node], pairs + [(k, v)])
  {
    var n, all := m[k := node], pairs + [(k, v)];
    assert n.Keys == m.Keys + {k};
    forall x | x in n ensures HasKey(all, x) {
      if x == k {
        assert all[|pairs|].0 == k;
      } else {
        assert HasKey(pairs, x);
        var j :| 0 <= j < |pairs| && pairs[j].0 == x;
        assert all[j].0 == x;
      }
    }
  }

  /** The nodes hold the pairs. */
  ghost predicate Holds<K(0), V(0)>(order: seq<Node<K, V>>, pairs: seq<(K, V)>)
    reads order`key, order`value
  {
    |order| == |pairs| && forall i :: 0 <= i < |order| ==> order[i].key == pairs[i].0 && order[i].value == pairs[i].1
  }

  lemma HeadIsFirst<K(0), V(0)>(root: Node<K, V>, order: seq<Node<K, V>>, pairs: seq<(K, V)>)
    requires Linked(root, order) && Holds(order, pairs)
    ensures |order| == |pairs| && root.next == if order == [] then root else order[0]
  {
    assert Ring(root, order, 0).next == Ring(root, order, 1);
  }

  lemma DistinctAfterAppending<N>(order: seq<N>, node: N)
    requires Distinct(order) && node !in order
    ensures Distinct(order + [node])
  {
  }

  lemma HoldsAfterAppending<K(0), V(0)>(order: seq<Node<K, V>>, pairs: seq<(K, V)>, node: Node<K, V>)
    requires Holds(order, pairs)
    ensures Holds(order + [node], pairs + [(node.key, node.value)])
  {
  }

  lemma MapSize<K, V, N>(m: map<K, N>, k: K, order: seq<N>, pairs: seq<(K, V)>)
    requires k in m && Indexes(m - {k}, order, pairs)
    ensures |m| == |order| + 1 == |pairs| + 1
  {
  }

  // ----- The cache

  class Cache<K(==, 0), V(0)> {
    const threshold: int
    const root: Node<K, V>
    var lruMap: map<K, Node<K, V>>
    var totalCount: nat
    var hitCount: nat
    /** The list from its head, and the pairs it holds. */
    ghost var order: seq<Node<K, V>>
    ghost var pairs: seq<(K, V)>

    ghost predicate Valid()
      reads this, root, order
    {
      Simple(root, order) && Linked(root, order) && Holds(order, pairs) && Indexes(lruMap, order, pairs)
    }

    constructor (threshold: int)
      ensures Valid() && pairs == [] && this.threshold == threshold && totalCount == 0 == hitCount
    {
      this.threshold := threshold;
      root := new Node();
      lruMap, order, pairs, totalCount, hitCount := map[], [], [], 0, 0;
      new;
      root.next, root.prev := root, root;
    }

    method Check(key: K) returns (found: bool)
      requires Valid()
      ensures found <==> Lookup(pairs, key).Some?
    {
      found := key in lruMap;
      if found {
        ghost var i := Locate(lruMap, order, pairs, key);
      } else {
        Missing(lruMap, order, pairs, key);
      }
    }

    /** Node i leaves the list. */
    method DropAt(node: Node<K, V>, ghost i: nat)
      requires Simple(root, order) && Linked(root, order) && Holds(order, pairs) && i < |order| && order[i] == node
      modifies this`order, this`pairs, root`next, root`prev, order`next, order`prev
      ensures Simple(root, order) && Linked(root, order) && Holds(order, pairs) && node !in order
      ensures order == RemoveAt(old(order), i) && pairs == RemoveAt(old(pairs), i) && node.key == old(pairs)[i].0
      ensures forall j :: 0 <= j < |order| ==> order[j] in old(order)
    {
      RemoveFromList(node, root, order, i);
      hide Linked, Holds;
      order, pairs := RemoveAt(order, i), RemoveAt(pairs, i);
    }

    /** The listed node of a key leaves the list. */
    method Unlist(node: Node<K, V>, ghost key: K)
      requires Valid() && key in lruMap && lruMap[key] == node
      modifies this`order, this`pairs, root`next, root`prev, order`next, order`prev
      ensures Simple(root, order) && Linked(root, order) && Holds(order, pairs)
      ensures node in old(order) && node !in order && node.key == key
      ensures Indexes(lruMap - {key}, order, pairs)
      ensures pairs == Without(old(pairs), key) && Lookup(old(pairs), key) == Some(node.value)
      ensures forall j :: 0 <= j < |order| ==> order[j] in old(order)
    {
      ghost var i := Locate(lruMap, order, pairs, key);
      IndexesAfterRemoving(lruMap, order, pairs, i);
      assert node.value == pairs[i].1;
      hide Linked, Holds, Distinct, Indexes, RemoveAt;
      DropAt(node, i);
    }

    /** While a node is added it is in the map under its key, but not in the list. */
    ghost predicate Adding(node: Node<K, V>, key: K)
      reads this, root, order
    {
      && Simple(root, order) && Linked(root, order) && Holds(order, pairs) && node != root && node !in order
      && key in lruMap && lruMap[key] == node && Indexes(lruMap - {key}, order, pairs)
    }

    /** The node enters the list at its end. */
    method List(node: Node<K, V>, ghost key: K)
      requires Adding(node, key) && node.key == key
      modifies this`order, this`pairs, root`next, root`prev, order`next, node`next, node`prev
      ensures Valid() && pairs == old(pairs) + [(key, node.value)]
    {
      hide Indexes, Linked, Holds, Distinct;
      Append(node, root, order);
      DistinctAfterAppending(order, node);
      HoldsAfterAppending(order, pairs, node);
      IndexesAfterAppending(lruMap - {key}, order, pairs, key, node.value, node);
      assert (lruMap - {key})[key := node] == lruMap;
      order, pairs := order + [node], pairs + [(key, node.value)];
    }

    /** find */
    method Find(key: K) returns (r: Option<V>)
      requires Valid()
      modifies this, root`next, root`prev, order`next, order`prev
      ensures Valid() && r == Lookup(old(pairs), key) && pairs == Touched(old(pairs), key)
      ensures totalCount == old(totalCount) + 1 && hitCount == old(hitCount) + if r.Some? then 1 else 0
    {
      hide Indexes, Linked, Holds, Distinct;
      totalCount := totalCount + 1;
      if key !in lruMap {
        Missing(lruMap, order, pairs, key);
        return None;
      }
      hitCount := hitCount + 1;
      var node := lruMap[key];
      r := Some(node.value);
      Unlist(node, key);
      List(node, key);
    }

    /** del */
    method Del(key: K)
      requires Valid()
      modifies this, root`next, root`prev, order`next, order`prev
      ensures Valid() && pairs == Without(old(pairs), key)
      ensures totalCount == old(totalCount) && hitCount == old(hitCount)
    {
      hide Indexes, Linked, Holds, Distinct;
      if key in lruMap {
        var node := lruMap[key];
        Unlist(node, key);
        lruMap := lruMap - {node.key};
      } else {
        Missing(lruMap, order, pairs, key);
      }
    }

    /** The node for the added key, taken out of the list or new. */
    method Take(key: K) returns (node: Node<K, V>)
      requires Valid()
      modifies this`lruMap, this`order, this`pairs, root`next, root`prev, order`next, order`prev
      ensures Adding(node, key) && (fresh(node) || node in old(order))
      ensures pairs == Without(old(pairs), key)
      ensures forall i :: 0 <= i < |order| ==> order[i] in old(order)
    {
      hide Indexes, Linked, Holds, Distinct;
      if key in lruMap {
        node := lruMap[key];
        Unlist(node, key);
      } else {
        Missing(lruMap, order, pairs, key);
        node := new Node();
        lruMap := lruMap[key := node];
        assert lruMap - {key} == old(lruMap);
      }
    }

    /** The least recently used node goes. */
    method EvictHead(ghost node: Node<K, V>, ghost key: K)
      requires Adding(node, key) && order != []
      modifies this`lruMap, this`order, this`pairs, root`next, root`prev, order`next, order`prev
      ensures Adding(node, key) && order == old(order[1..]) && pairs == old(pairs[1..])
    {
      hide Indexes, Linked, Holds, Distinct, RemoveAt;
      HeadIsFirst(root, order, pairs);
      var head := root.next;
      EvictedIndexes(lruMap, key, order, pairs);
      DropAt(head, 0);
      lruMap := lruMap - {head.key};
    }

    /** add */
    method Add(key: K, value: V)
      requires Valid()
      modifies this, root`next, root`prev, order
      ensures Valid() && pairs == Added(old(pairs), key, value, threshold)
      ensures totalCount == old(totalCount) && hitCount == old(hitCount)
    {
      hide Indexes, Linked, Holds, Distinct;
      var node := Take(key);
      ghost var others, gone := pairs, 0;
      while |lruMap| >= threshold && root.next != root
        invariant 0 <= gone <= |others| && pairs == others[gone..] && Adding(node, key)
        invariant forall i :: 0 <= i < |order| ==> order[i] in old(order)
        invariant gone > 0 ==> |others| - gone + 2 >= threshold
        invariant totalCount == old(totalCount) && hitCount == old(hitCount)
        decreases |order|
      {
        HeadIsFirst(root, order, pairs);
        MapSize(lruMap, key, order, pairs);
        EvictHead(node, key);
        gone := gone + 1;
      }
      MapSize(lruMap, key, order, pairs);
      HeadIsFirst(root, order, pairs);
      assert gone == |others| - Room(|others|, threshold);
      node.value := value;
      node.key := key;
      List(node, key);
    }
  }

  // ----- Runs

  datatype Op<K, V> = AddOp(key: K, value: V) | FindOp(key: K) | DelOp(key: K)

  function Apply<K(==), V>(s: seq<(K, V)>, op: Op<K, V>, threshold: int): seq<(K, V)> {
    match op
    case AddOp(k, v) => Added(s, k, v, threshold)
    case FindOp(k) => Touched(s, k)
    case DelOp(k) => Without(s, k)
  }

  function Run<K(==), V>(ops: seq<Op<K, V>>, threshold: int): seq<(K, V)> {
    if ops == [] then [] else Apply(Run(ops[..|ops| - 1], threshold), ops[|ops| - 1], threshold)
  }

  /** When the key was last added or looked for. */
  function LastUse<K(==), V>(ops: seq<Op<K, V>>, k: K): (t: int)
    ensures t < |ops|
  {
    if ops == [] then -1
    else if ops[|ops| - 1].key == k && !ops[|ops| - 1].DelOp? then |ops| - 1
    else LastUse(ops[..|ops| - 1], k)
  }

  /** The value the key was last added with, unless it was deleted since. */
  function LatestAdd<K(==), V>(ops: seq<Op<K, V>>, k: K): Option<V> {
    if ops == [] then None
    else match ops[|ops| - 1]
      case AddOp(x, v) => if x == k then Some(v) else LatestAdd(ops[..|ops| - 1], k)
      case DelOp(x) => if x == k then None else LatestAdd(ops[..|ops| - 1], k)
      case FindOp(_) => LatestAdd(ops[..|ops| - 1], k)
  }

  /** In the order of last use, and every value is the one last added for its key. */
  ghost predicate Recent<K, V>(s: seq<(K, V)>, ops: seq<Op<K, V>>) {
    && (forall i, j :: 0 <= i < j < |s| ==> LastUse(ops, s[i].0) < LastUse(ops, s[j].0))
    && (forall i :: 0 <= i < |s| ==> LatestAdd(ops, s[i].0) == Some(s[i].1))
  }

  lemma Latest<K, V>(ops: seq<Op<K, V>>, op: Op<K, V>, k: K)
    ensures LastUse(ops + [op], k) == if op.key == k && !op.DelOp? then |ops| else LastUse(ops, k)
    ensures op.key != k || op.FindOp? ==> LatestAdd(ops + [op], k) == LatestAdd(ops, k)
    ensures op.AddOp? && op.key == k ==> LatestAdd(ops + [op], k) == Some(op.value)
  {
  }

  /** The other keys' pairs stay recent. */
  lemma OthersStayRecent<K, V>(s: seq<(K, V)>, ops: seq<Op<K, V>>, op: Op<K, V>)
    requires Recent(s, ops)
    ensures Recent(Without(s, op.key), ops + [op])
    ensures forall i :: 0 <= i < |Without(s, op.key)| ==> Without(s, op.key)[i].0 != op.key
    ensures Without(s, op.key) != s ==> HasKey(s, op.key)
    ensures HasKey(s, op.key) ==> exists v :: Lookup(s, op.key) == Some(v) && LatestAdd(ops, op.key) == Some(v)
    ensures !HasKey(s, op.key) ==> Lookup(s, op.key) == None
  {
    var r := Without(s, op.key);
    if HasKey(s, op.key) {
      var i :| 0 <= i < |s| && s[i].0 == op.key;
      WithoutAt(s, i);
    } else {
      WithoutAbsent(s, op.key);
    }
    forall j | 0 <= j < |r| ensures LastUse(ops + [op], r[j].0) == LastUse(ops, r[j].0)
      ensures LatestAdd(ops + [op], r[j].0) == Some(r[j].1)
    {
      Latest(ops, op, r[j].0);
    }
  }

  lemma AppendedIsRecent<K, V>(s: seq<(K, V)>, ops: seq<Op<K, V>>, op: Op<K, V>, v: V)
    requires Recent(s, ops + [op]) && !op.DelOp? && LatestAdd(ops + [op], op.key) == Some(v)
    requires forall i :: 0 <= i < |s| ==> s[i].0 != op.key
    ensures Recent(s + [(op.key, v)], ops + [op])
  {
  }

  lemma BackIsRecent<K, V>(s: seq<(K, V)>, ops: seq<Op<K, V>>, from: nat)
    requires Recent(s, ops) && from <= |s|
    ensures Recent(s[from..], ops)
  {
  }

  lemma StepStaysRecent<K, V>(s: seq<(K, V)>, ops: seq<Op<K, V>>, op: Op<K, V>, threshold: int)
    requires Recent(s, ops)
    ensures Recent(Apply(s, op, threshold), ops + [op])
  {
    hide Recent, LastUse;
    OthersStayRecent(s, ops, op);
    var others := Without(s, op.key);
    Latest(ops, op, op.key);
    match op
    case AddOp(k, v) =>
      var from := |others| - Room(|others|, threshold);
      BackIsRecent(others, ops + [op], from);
      AppendedIsRecent(others[from..], ops, op, v);
    case FindOp(k) =>
      if HasKey(s, k) {
        AppendedIsRecent(others, ops, op, Lookup(s, k).value);
      }
    case DelOp(_) =>
  }

  /** After any run the cache holds its pairs in the order of last use, so that what is evicted is
      always least recently used, and its size is bounded. */
  lemma {:induction false} EveryRunIsRecent<K, V>(ops: seq<Op<K, V>>, threshold: int)
    ensures Recent(Run(ops, threshold), ops)
    ensures |Run(ops, threshold)| <= if threshold - 1 > 1 then threshold - 1 else 1
  {
    if ops != [] {
      var before, op := ops[..|ops| - 1], ops[|ops| - 1];
      assert ops == before + [op];
      EveryRunIsRecent(before, threshold);
      var s := Run(before, threshold);
      StepStaysRecent(s, before, op, threshold);
      if op.FindOp? && HasKey(s, op.key) {
        var i :| 0 <= i < |s| && s[i].0 == op.key;
        WithoutAt(s, i);
      } else if op.FindOp? {
        WithoutAbsent(s, op.key);
      }
    }
  }

  /** After any run, a hit gives the value that was last added for the key. */
  lemma HitIsLatest<K, V>(ops: seq<Op<K, V>>, threshold: int, k: K)
    requires Lookup(Run(ops, threshold), k).Some?
    ensures Lookup(Run(ops, threshold), k) == LatestAdd(ops, k)
  {
    var s := Run(ops, threshold);
    EveryRunIsRecent(ops, threshold);
    if HasKey(s, k) {
      var i :| 0 <= i < |s| && s[i].0 == k;
      WithoutAt(s, i);
    } else {
      WithoutAbsent(s, k);
    }
  }

  // ----- What was evicted

  /** When the key was last added or hit. */
  function LastTouch<K(==), V>(ops: seq<Op<K, V>>, k: K, threshold: int): (t: int)
    ensures t < |ops|
  {
    if ops == [] then -1
    else
      var front, op := ops[..|ops| - 1], ops[|ops| - 1];
      if op.key == k && (op.AddOp? || (op.FindOp? && HasKey(Run(front, threshold), k))) then |ops| - 1
      else LastTouch(front, k, threshold)
  }

  lemma HasKeyOfOne<K, V>(p: (K, V), k: K)
    ensures HasKey([p], k) <==> p.0 == k
  {
    assert [p][0] == p;
  }

  lemma {:induction false} HasKeyIff<K, V>(s: seq<(K, V)>, x: K, k: K)
    ensures HasKey(Without(s, x), k) <==> k != x && HasKey(s, k)
    ensures Lookup(s, k).Some? <==> HasKey(s, k)
  {
    if s != [] {
      var first, rest := [s[0]], s[1..];
      assert s == first + rest;
      hide HasKey;
      HasKeyIff(rest, x, k);
      HasKeyOfOne(s[0], k);
      HasKeyOfSum(first, rest, k);
      HasKeyOfSum(first, Without(rest, x), k);
      assert Without(s, x) == if s[0].0 == x then Without(rest, x) else first + Without(rest, x);
    }
  }

  lemma IndexOf<K, V>(s: seq<(K, V)>, k: K) returns (i: nat)
    requires HasKey(s, k)
    ensures i < |s| && s[i].0 == k
  {
    i :| 0 <= i < |s| && s[i].0 == k;
  }

  lemma HasKeyOfSum<K, V>(a: seq<(K, V)>, b: seq<(K, V)>, k: K)
    ensures HasKey(a + b, k) <==> HasKey(a, k) || HasKey(b, k)
  {
    if HasKey(a, k) {
      var i :| 0 <= i < |a| && a[i].0 == k;
      assert (a + b)[i] == a[i];
    } else if HasKey(b, k) {
      var i :| 0 <= i < |b| && b[i].0 == k;
      assert (a + b)[|a| + i] == b[i];
    }
  }

  /** Only an added key comes in, and only a deletion or an addition takes another out. */
  lemma HeldAfter<K, V>(s: seq<(K, V)>, op: Op<K, V>, threshold: int, k: K)
    ensures op.FindOp? ==> (HasKey(Apply(s, op, threshold), k) <==> HasKey(s, k))
    ensures op.DelOp? ==> (HasKey(Apply(s, op, threshold), k) <==> k != op.key && HasKey(s, k))
    ensures op.AddOp? && op.key == k ==> HasKey(Apply(s, op, threshold), k)
    ensures op.AddOp? && op.key != k && HasKey(Apply(s, op, threshold), k) ==> HasKey(s, k)
  {
    var others := Without(s, op.key);
    HasKeyIff(s, op.key, k);
    HasKeyIff(s, op.key, op.key);
    match op
    case AddOp(x, v) =>
      var from := |others| - Room(|others|, threshold);
      HasKeyOfSum(others[from..], [(x, v)], k);
      HasKeyOfOne((x, v), k);
      assert others == others[..from] + others[from..];
      HasKeyOfSum(others[..from], others[from..], k);
    case FindOp(x) =>
      if HasKey(s, x) {
        HasKeyIff(s, x, x);
        HasKeyOfSum(others, [(x, Lookup(s, x).value)], k);
        HasKeyOfOne((x, Lookup(s, x).value), k);
      } else {
        WithoutAbsent(s, x);
      }
    case DelOp(_) =>
  }

  /** Since it was last added or hit, a held key was not even looked for. */
  lemma {:induction false} HeldWasHit<K, V>(ops: seq<Op<K, V>>, threshold: int, k: K)
    requires HasKey(Run(ops, threshold), k)
    ensures LastTouch(ops, k, threshold) == LastUse(ops, k)
  {
    hide Apply, HasKey;
    if ops != [] {
      var front, op := ops[..|ops| - 1], ops[|ops| - 1];
      HeldAfter(Run(front, threshold), op, threshold, k);
      if op.key != k || op.DelOp? {
        HeldWasHit(front, threshold, k);
      }
    }
  }

  /** An addition evicts from the front, in the order of use. */
  lemma EvictedFirst<K, V>(s: seq<(K, V)>, ops: seq<Op<K, V>>, op: Op<K, V>, threshold: int, k: K, y: K)
    requires Recent(s, ops) && op.AddOp? && op.key != k && op.key != y
    requires HasKey(s, k) && !HasKey(Apply(s, op, threshold), k) && HasKey(Apply(s, op, threshold), y)
    ensures LastUse(ops, k) < LastUse(ops, y)
  {
    hide HasKey, Recent, LastUse, LatestAdd, Without;
    var others := Without(s, op.key);
    var from := |others| - Room(|others|, threshold);
    OthersStayRecent(s, ops, op);
    Latest(ops, op, k);
    Latest(ops, op, y);
    HasKeyIff(s, op.key, k);
    HasKeyOfSum(others[from..], [(op.key, op.value)], k);
    HasKeyOfSum(others[from..], [(op.key, op.value)], y);
    HasKeyOfOne((op.key, op.value), y);
    assert others == others[..from] + others[from..];
    HasKeyOfSum(others[..from], others[from..], k);
    var i := IndexOf(others[..from], k);
    var j := IndexOf(others[from..], y);
  }

  /** After any run, a key that was added, not deleted since and is no longer held was last added or hit
      before every held key was. */
  lemma {:induction false} EvictedIsOlder<K, V>(ops: seq<Op<K, V>>, threshold: int, k: K, y: K)
    requires LatestAdd(ops, k).Some? && !HasKey(Run(ops, threshold), k) && HasKey(Run(ops, threshold), y)
    ensures LastTouch(ops, k, threshold) < LastTouch(ops, y, threshold)
  {
    var front, op := ops[..|ops| - 1], ops[|ops| - 1];
    var s := Run(front, threshold);
    hide Apply, HasKey, LastUse;
    assert ops == front + [op];
    Latest(front, op, k);
    HeldAfter(s, op, threshold, k);
    HeldAfter(s, op, threshold, y);
    if op.key != y {
      if HasKey(s, k) {
        EveryRunIsRecent(front, threshold);
        EvictedFirst(s, front, op, threshold, k, y);
        HeldWasHit(front, threshold, k);
        HeldWasHit(front, threshold, y);
      } else {
        EvictedIsOlder(front, threshold, k, y);
      }
    }
  }

  /** An addition that evicts leaves the cache as full as it gets. */
  lemma EvictionFills<K, V>(s: seq<(K, V)>, k: K, v: V, threshold: int, y: K)
    requires y != k && HasKey(s, y) && !HasKey(Added(s, k, v, threshold), y)
    ensures |Added(s, k, v, threshold)| == if threshold - 1 > 1 then threshold - 1 else 1
  {
    var others := Without(s, k);
    HasKeyIff(s, k, y);
    HasKeyOfSum(others, [(k, v)], y);
    assert others[0..] == others;
  }

  /** After any run, a key that was added, not deleted since and is no longer held went when an
      addition had filled the cache. */
  lemma {:induction false} EvictedWhenFull<K, V>(ops: seq<Op<K, V>>, threshold: int, k: K) returns (n: nat)
    requires LatestAdd(ops, k).Some? && !HasKey(Run(ops, threshold), k)
    ensures n < |ops| && HasKey(Run(ops[..n], threshold), k) && !HasKey(Run(ops[..n + 1], threshold), k)
    ensures ops[n].AddOp? && |Run(ops[..n + 1], threshold)| == if threshold - 1 > 1 then threshold - 1 else 1
  {
    var front, op := ops[..|ops| - 1], ops[|ops| - 1];
    var s := Run(front, threshold);
    assert ops == front + [op];
    Latest(front, op, k);
    HeldAfter(s, op, threshold, k);
    if HasKey(s, k) {
      n := |ops| - 1;
      assert ops[..n + 1] == ops;
      EvictionFills(s, op.key, op.value, threshold, k);
    } else {
      n := EvictedWhenFull(front, threshold, k);
      assert front[..n] == ops[..n] && front[..n + 1] == ops[..n + 1];
    }
  }
}
