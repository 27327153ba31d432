/** The pool of database instances, with whole operations as atomic steps: status changes,
    feedback from finished requests, and the ways of picking an instance. */
module ConnectionPool {
  import opened Arithmetic
  import opened WeightTree
  import opened WeightFeedback
  import opened Words

  /** A throw of the dice that landed: the caches it walked over in so many steps, where it landed and
      how far into that instance's interval, and the weight and the room the instance then had. */
  datatype Landing = Landing(weights: seq<int>, lefts: seq<int>, total: int, steps: nat,
                             index: nat, offset: int, after: int, room: bool)

  /** Over exact caches, the k-th random number walks to that instance. */
  ghost predicate Lands(l: Landing, rolls: nat -> nat, k: nat) {
    && |l.lefts| == |l.weights| > 0 && Exact(l.weights, l.lefts) && l.total == Sum(l.weights) > 0
    && l.index < |l.weights|
    && Walk(l.weights, l.lefts, 0, Pool.Dice(rolls, k, l.total)) == Hit(l.index, l.offset)
    && WalkSteps(l.weights, l.lefts, 0, Pool.Dice(rolls, k, l.total)) == l.steps
  }

  /** The instance turned the request down. */
  predicate Refused(l: Landing) {
    l.offset > l.after || !l.room
  }

  /** The nodes visited by the throws that landed. */
  ghost function Visits(ls: seq<Landing>): nat {
    if ls == [] then 0 else Visits(ls[..|ls| - 1]) + ls[|ls| - 1].steps
  }

  lemma VisitsOfMore(ls: seq<Landing>, l: Landing)
    ensures Visits(ls + [l]) == Visits(ls) + l.steps
  {
    assert (ls + [l])[..|ls|] == ls;
  }

  /** The weights the next throw finds. */
  ghost function After(ls: seq<Landing>, first: seq<int>): seq<int> {
    if ls == [] then first
    else
      var l := ls[|ls| - 1];
      if l.index < |l.weights| then l.weights[l.index := l.after] else l.weights
  }

  ghost predicate Thrown(ls: seq<Landing>, rolls: nat -> nat, first: seq<int>) {
    forall k: nat :: k < |ls| ==> Lands(ls[k], rolls, k) && ls[k].weights == After(ls[..k], first)
  }

  lemma NothingThrown(rolls: nat -> nat, first: seq<int>)
    ensures Thrown([], rolls, first) && After([], first) == first
  {
  }

  lemma OneMoreThrow(ls: seq<Landing>, l: Landing, rolls: nat -> nat, first: seq<int>)
    requires Thrown(ls, rolls, first) && Lands(l, rolls, |ls|) && l.weights == After(ls, first)
    ensures Thrown(ls + [l], rolls, first)
  {
    var all := ls + [l];
    forall k: nat | k < |all| ensures Lands(all[k], rolls, k) && all[k].weights == After(all[..k], first) {
      assert all[..k] == if k < |ls| then ls[..k] else ls;
    }
  }

  class Pool {
    var ids: seq<string>                       // _instances_index
    var instances: map<string, Instance>       // _instances_map
    var total: int                             // _total_weight
    var rollingNum: nat                        // _rolling_num, a uint64
    const maxConnections: int
    var configured: int                        // _conf_connection_per_instance
    /** The instances in index order, their weights and their left caches. */
    ghost var nodes: seq<Instance>
    ghost var weights: seq<int>
    ghost var lefts: seq<int>

    /** Map and index list the same instances, each at its own index (so they are distinct). */
    ghost predicate Shape()
      reads `nodes, `ids, `instances
    {
      && |ids| == |nodes| == |instances|
      && forall i :: 0 <= i < |nodes| ==>
           nodes[i].index == i && ids[i] in instances && instances[ids[i]] == nodes[i]
    }

    /** The two views list what the instances store. */
    ghost predicate Viewed()
      reads `nodes, `weights, `lefts, nodes`weight, nodes`left
    {
      && |weights| == |lefts| == |nodes|
      && forall i :: 0 <= i < |nodes| ==> nodes[i].weight == weights[i] && nodes[i].left == lefts[i]
    }

    ghost predicate InstancesValid()
      reads `nodes, nodes`weight, nodes`base, nodes`avgLatency, nodes`dev, nodes`samples, nodes`timeQ
    {
      forall i {:trigger nodes[i].Valid()} :: 0 <= i < |nodes| ==> nodes[i].Valid()
    }

    /** An instance has weight exactly while it is on line. */
    ghost predicate WeightFollowsStatus()
      reads `nodes, nodes`status, nodes`weight
    {
      forall i {:trigger nodes[i].Consistent()} :: 0 <= i < |nodes| ==> nodes[i].Consistent()
    }

    /** Every cache in the pool equals the sum it stands for. */
    ghost predicate Settled()
      reads `weights, `lefts, `total
    {
      Exact(weights, lefts) && total == Sum(weights)
    }

    ghost predicate Valid()
      reads this, nodes
    {
      Shape() && Viewed() && InstancesValid() && WeightFollowsStatus() && Settled()
    }

    /** The weights of all instances can be recomputed at any time, without undefined arithmetic. */
    ghost predicate Ready()
      reads `nodes, `configured, nodes`base, nodes`avgLatency
    {
      && maxConnections >= 1 && configured >= 0
      && forall i {:trigger nodes[i].Punishable()} :: 0 <= i < |nodes| ==> nodes[i].Punishable()
    }

    ghost predicate Member(node: Instance)
      reads `nodes
    {
      node.index < |nodes| && nodes[node.index] == node
    }

    constructor (maxConnections: int, configured: int)
      ensures Valid() && nodes == [] && ids == [] && (maxConnections >= 1 && configured >= 0 ==> Ready())
    {
      ids, instances, total, rollingNum := [], map[], 0, 0;
      this.maxConnections, this.configured := maxConnections, configured;
      nodes, weights, lefts := [], [], [];
    }

    // ----- Publishing a difference

    /** Adds `diff` to the left cache of every ancestor reached from its left side, and to no
        other.  The two early exits of the source are never taken. */
    method UpdateParentWeight(diff: int, start: nat)
      requires Shape() && Viewed() && start < |ids|
      modifies `lefts, nodes`left
      ensures Viewed()
      ensures forall j :: 0 <= j < |lefts| ==>
                lefts[j] == old(lefts)[j] + if InSubtree(2 * j + 1, start) then diff else 0
    {
      var index: nat := start;
      while index != 0
        invariant index < |ids| && Viewed()
        invariant forall j :: 0 <= j < |lefts| ==>
          && (InSubtree(2 * j + 1, index) ==> InSubtree(2 * j + 1, start))
          && lefts[j] == old(lefts)[j] +
               if InSubtree(2 * j + 1, start) && !InSubtree(2 * j + 1, index) then diff else 0
        decreases index
      {
        var parent := (index - 1) / 2;
        if parent * 2 + 1 == index {
          var node := instances[ids[parent]];
          node.left := node.left + diff;
          lefts := lefts[parent := node.left];
        }
        index := parent;
      }
    }

    /** The views are out of date at most for the weight of `node`. */
    ghost predicate ViewedBut(node: Instance)
      reads `nodes, `weights, `lefts, nodes`weight, nodes`left
    {
      && |weights| == |lefts| == |nodes|
      && forall i :: 0 <= i < |nodes| ==>
           nodes[i].left == lefts[i] && (nodes[i] == node || nodes[i].weight == weights[i])
    }

    /** update_parent_weight, then total_fetch_add: the weight of `node` has just moved by diff
        from what the caches know, and now they know. */
    method Announce(node: Instance, diff: int)
      requires Shape() && Member(node) && ViewedBut(node) && Settled()
      requires node.weight == weights[node.index] + diff
      modifies `weights, `lefts, `total, nodes`left
      ensures Viewed() && Settled() && weights == old(weights)[node.index := node.weight]
    {
      ghost var i := node.index;
      ghost var before := weights;
      weights := weights[i := node.weight];
      assert Viewed();
      UpdateParentWeight(diff, node.index);
      total := total + diff;
      ExactAfterChange(before, old(lefts), i, node.weight, lefts);
    }

    /** Only the instance `node` may have lost its consistency; it has it. */
    twostate lemma StillConsistent(node: Instance)
      requires nodes == old(nodes) && Shape() && old(WeightFollowsStatus()) && Member(node) && node.Consistent()
      requires forall i :: 0 <= i < |nodes| && nodes[i] != node ==>
                 nodes[i].weight == old(nodes[i].weight) && nodes[i].status == old(nodes[i].status)
      ensures WeightFollowsStatus()
    {
      forall i {:trigger nodes[i].Consistent()} | 0 <= i < |nodes| ensures nodes[i].Consistent() {
        assert old(nodes[i].Consistent());
      }
    }

    /** Likewise for validity, when at most the weight fields of `node` changed. */
    twostate lemma StillValid(node: Instance)
      requires nodes == old(nodes) && old(InstancesValid()) && Member(node) && node.Valid()
      requires forall i :: 0 <= i < |nodes| && nodes[i] != node ==> unchanged(nodes[i])
      ensures InstancesValid()
    {
      forall i {:trigger nodes[i].Valid()} | 0 <= i < |nodes| ensures nodes[i].Valid() {
        assert old(nodes[i].Valid());
      }
    }

    /** Likewise for readiness. */
    twostate lemma StillReady(node: Instance)
      requires nodes == old(nodes) && configured == old(configured) && old(Ready()) && node.Punishable()
      requires forall i :: 0 <= i < |nodes| && nodes[i] != node ==>
                 nodes[i].base == old(nodes[i].base) && nodes[i].avgLatency == old(nodes[i].avgLatency)
      ensures Ready()
    {
      forall i {:trigger nodes[i].Punishable()} | 0 <= i < |nodes| ensures nodes[i].Punishable() {
        assert old(nodes[i].Punishable());
      }
    }

    /** Announce, in a pool whose only fault is that it has not heard of the new weight. */
    method Absorb(node: Instance, diff: int)
      requires Shape() && Member(node) && ViewedBut(node) && Settled()
      requires InstancesValid() && WeightFollowsStatus()
      requires node.weight == weights[node.index] + diff
      modifies `weights, `lefts, `total, nodes`left
      ensures Valid() && weights == old(weights)[node.index := node.weight]
    {
      Announce(node, diff);
    }

    // ----- Status changes

    /** reset_weight or clear_weight on one instance, and its announcement to the pool. */
    method Reweigh(node: Instance, online: bool)
      requires Shape() && Viewed() && InstancesValid() && Settled() && Member(node)
      modifies `lefts, `weights, `total, nodes`left, node`weight, node`base
      ensures Viewed() && InstancesValid() && Settled()
      ensures weights == old(weights)[node.index := if online then DEFAULT_WEIGHT else 0]
      ensures node.weight == weights[node.index]
      ensures old(Ready()) && (!online || node.avgLatency <= LATENCY_LIMIT) ==> Ready()
    {
      hide Product;
      var diff;
      if online {
        diff := node.ResetWeight();
      } else {
        diff := node.ClearWeight();
      }
      StillValid(node);
      if old(Ready()) && (!online || node.avgLatency <= LATENCY_LIMIT) {
        StillReady(node);
      }
      Announce(node, diff);
    }

    /** One of status_online_to_faulty, status_offline_to_faulty, status_online_to_offline,
        status_faulty_to_offline, status_delay_to_offline, status_faulty_to_online. */
    method SwitchStatus(node: Instance, expected: Status, desired: Status) returns (switched: bool)
      requires Valid() && Member(node)
      requires expected != desired && desired != Delay
      requires desired == OnLine ==> expected == Faulty
      modifies `lefts, `weights, `total, nodes`left, node`status, node`weight, node`base
      ensures Valid()
      ensures switched <==> old(node.status) == expected
      ensures node.status == if switched then desired else old(node.status)
      ensures weights == if !switched then old(weights)
                         else old(weights)[node.index := if desired == OnLine then DEFAULT_WEIGHT else 0]
      ensures old(Ready()) && (desired != OnLine || node.avgLatency <= LATENCY_LIMIT) ==> Ready()
    {
      switched := node.status == expected;
      if switched {
        node.status := desired;
        Reweigh(node, desired == OnLine);
        StillConsistent(node);
      }
    }

    /** status_to_online, after a delayed instance was probed successfully. */
    method StatusToOnline(node: Instance)
      requires Valid() && Member(node)
      modifies `lefts, `weights, `total, nodes`left, node`status, node`weight, node`base
      ensures Valid()
      ensures node.status == OnLine && weights == old(weights)[node.index := DEFAULT_WEIGHT]
      ensures old(Ready()) && node.avgLatency <= LATENCY_LIMIT ==> Ready()
    {
      node.status := OnLine;
      Reweigh(node, true);
      StillConsistent(node);
    }

    /** status_to_delay, from the hang check. */
    method StatusToDelay(node: Instance)
      requires Valid() && Member(node)
      modifies `lefts, `weights, `total, nodes`left, node`status, node`weight, node`base
      ensures Valid()
      ensures node.status == Delay && weights == old(weights)[node.index := 0]
      ensures old(Ready()) ==> Ready()
    {
      Reweigh(node, false);
      node.status := Delay;
      StillConsistent(node);
    }

    // ----- Joining and feedback

    /** Enter a new instance into the map and the index; the caches take it for weightless. */
    method Enter(id: string, node: Instance)
      requires Valid() && id !in instances
      requires node.index == |ids| && node.left == 0 && node.Valid() && node.Consistent() && node.Punishable()
      modifies `instances, `ids, `nodes, `weights, `lefts
      ensures Shape() && ViewedBut(node) && InstancesValid() && WeightFollowsStatus() && Settled()
      ensures nodes == old(nodes) + [node] && ids == old(ids) + [id] && weights == old(weights) + [0]
      ensures old(Ready()) ==> Ready()
    {
      hide Product;
      ExactAfterAppend(weights, lefts);
      instances := instances[id := node];
      ids := ids + [id];
      nodes := nodes + [node];
      weights, lefts := weights + [0], lefts + [0];
      forall i {:trigger nodes[i].Valid()} {:trigger nodes[i].Consistent()} | 0 <= i < |nodes|
        ensures nodes[i].Valid() && nodes[i].Consistent()
      {
        if i < |old(nodes)| {
          assert nodes[i] == old(nodes)[i];
          assert old(nodes[i].Valid()) && old(nodes[i].Consistent());
        }
      }
      if old(Ready()) {
        forall i {:trigger nodes[i].Punishable()} | 0 <= i < |nodes| ensures nodes[i].Punishable() {
          assert i < |old(nodes)| ==> nodes[i] == old(nodes)[i] && old(nodes[i].Punishable());
        }
      }
    }

    /** An instance found by init joins on line, with the default weight.  Identifiers are
        distinct. */
    method AddOnLine(id: string, timeout: int) returns (node: Instance)
      requires Valid() && id !in instances
      modifies `instances, `ids, `nodes, `weights, `lefts, `total, nodes`left
      ensures Valid() && fresh(node) && node.status == OnLine
      ensures nodes == old(nodes) + [node] && weights == old(weights) + [DEFAULT_WEIGHT]
      ensures old(Ready()) ==> Ready()
    {
      hide Settled, InstancesValid, WeightFollowsStatus, Ready;
      node := new Instance(|ids|, OnLine, DEFAULT_WEIGHT, timeout);
      Enter(id, node);
      Announce(node, DEFAULT_WEIGHT);
    }

    /** An instance found by a later healthy_check joins as faulty, without weight. */
    method AddFaulty(id: string, timeout: int) returns (node: Instance)
      requires Valid() && id !in instances
      modifies `instances, `ids, `nodes, `weights, `lefts
      ensures Valid() && fresh(node) && node.status == Faulty
      ensures nodes == old(nodes) + [node] && weights == old(weights) + [0]
      ensures old(Ready()) ==> Ready()
    {
      node := new Instance(|ids|, Faulty, 0, timeout);
      Enter(id, node);
    }

    function LoadOf(node: Instance): Load
      reads `configured, node`connections
    {
      Load(node.connections >= maxConnections, maxConnections, configured)
    }

    /** The start of a request (constructor of ScopeProcWeight): it is in flight, and nothing else
        changes until a weight is next recomputed. */
    method Begin(node: Instance, begin: int)
      requires Valid() && Member(node)
      modifies node`beginTimeSum, node`beginTimeCount
      ensures Valid() && (old(Ready()) ==> Ready())
      ensures node.beginTimeSum == old(node.beginTimeSum) + begin
      ensures node.beginTimeCount == old(node.beginTimeCount) + 1
    {
      assert node.Valid();
      node.AddInflight(begin);
    }

    /** The instance's part of the end of a request; the caches do not know of it yet. */
    method Learn(node: Instance, begin: int, end: int, deviation: nat) returns (r: Arith)
      requires Valid() && Member(node)
      modifies node`weight, node`base, node`beginTimeSum, node`beginTimeCount, node`avgLatency,
               node`dev, node`qps, node`timeQ, node`samples, node`quartile, node`firstQuartile
      ensures r.Value? ==> InstancesValid() && WeightFollowsStatus() && node.weight == weights[node.index] + r.v
      ensures r.Value? && old(Ready()) ==> Ready()
      ensures node.beginTimeSum == old(node.beginTimeSum) - begin
      ensures node.beginTimeCount == old(node.beginTimeCount) - 1
      ensures node.status != OnLine ==> r == Value(0)
      ensures node.Learned(old(node.samples), old(node.qps), begin, end, LoadOf(node), r.Value?)
    {
      hide Instance.Learned, Instance.Punishable;
      if old(Ready()) {
        assert node.Punishable();
      }
      r := node.Finish(begin, end, deviation, LoadOf(node));
      if r.Value? {
        StillValid(node);
        StillConsistent(node);
        if old(Ready()) {
          StillReady(node);
        }
      }
    }

    /** The end of a request (destructor of ScopeProcWeight): it leaves the requests in flight,
        and its latency reweighs an instance that is on line.  `defined` is false where the
        source divides by zero or overflows. */
    method Feedback(node: Instance, begin: int, end: int, deviation: nat) returns (defined: bool)
      requires Valid() && Member(node)
      modifies `lefts, `weights, `total, nodes`left
      modifies node`weight, node`base, node`beginTimeSum, node`beginTimeCount, node`avgLatency,
               node`dev, node`qps, node`timeQ, node`samples, node`quartile, node`firstQuartile
      ensures defined ==> Valid() && weights == old(weights)[node.index := node.weight]
      ensures defined && old(Ready()) ==> Ready()
      ensures node.beginTimeSum == old(node.beginTimeSum) - begin
      ensures node.beginTimeCount == old(node.beginTimeCount) - 1
      ensures node.status != OnLine ==> defined && node.weight == old(node.weight)
      ensures node.Learned(old(node.samples), old(node.qps), begin, end, LoadOf(node), defined)
    {
      hide Instance.Learned, InstancesValid, WeightFollowsStatus, Settled, Ready;
      var r := Learn(node, begin, end, deviation);
      defined := r.Value?;
      if defined {
        Absorb(node, r.v);
      }
    }

    // ----- Picking an instance

    /** There is a connection to spare: a new one or an unused one. */
    predicate HasRoom(node: Instance)
      reads node`connections, node`hasUnused
    {
      node.connections < maxConnections || node.hasUnused
    }

    /** On line, or delayed if the caller will take that, and with a connection to spare. */
    predicate Eligible(node: Instance, lower: bool)
      reads node`status, node`connections, node`hasUnused
    {
      (node.status == OnLine || (lower && node.status == Delay)) && HasRoom(node)
    }

    /** The weight an instance would have if it were recomputed now. */
    ghost function Recomputed(node: Instance, now: int): Arith
      reads `configured, node`base, node`beginTimeCount, node`beginTimeSum, node`avgLatency, node`dev, node`connections
    {
      InflightWeight(node.base, node.beginTimeCount, node.beginTimeSum, node.avgLatency, node.dev, now, LoadOf(node))
    }

    /** An instance that has as many connections as it may is punished for that. */
    lemma RecomputedWeight(node: Instance, now: int) returns (mean: int, p: nat, q: nat)
      requires node.Valid() && node.Punishable() && maxConnections >= 1 && configured >= 0
      ensures BeganAt(mean, node.beginTimeCount, node.beginTimeSum)
      ensures Punished(p, node.base, node.beginTimeCount, node.avgLatency, node.dev, now - mean)
      ensures if node.beginTimeCount > 0 && node.connections >= maxConnections
              then var scale := DivideCeil(maxConnections, configured); q * scale <= p < (q + 1) * scale
              else q == p
      ensures Recomputed(node, now) == Value(Max(q, MIN_WEIGHT))
    {
      mean, p, q := WeightInFlight(node.base, node.beginTimeCount, node.beginTimeSum, node.avgLatency, node.dev, now,
                                   LoadOf(node));
    }

    /** The instance a value of the rolling counter stands for. */
    ghost function InTurn(k: nat): (node: Instance)
      requires Shape() && ids != []
      reads `nodes, `ids, `instances
      ensures node == instances[ids[k % |ids|]] && Member(node)
    {
      nodes[k % |ids|]
    }

    /** The counter moves on by one; the instance it then stands for. */
    method NextInTurn() returns (node: Instance)
      requires Shape() && ids != []
      modifies `rollingNum
      ensures node == InTurn(rollingNum)
      ensures old(rollingNum) + 1 < TWO64 ==> rollingNum == old(rollingNum) + 1
    {
      rollingNum := (rollingNum + 1) % TWO64;
      var n := |ids|;
      node := instances[ids[rollingNum % n]];
    }

    /** Among the values of a full round one stands for each instance. */
    lemma RoundCovers(first: nat, i: nat) returns (k: nat)
      requires Shape() && i < |ids|
      ensures first <= k < first + |ids| && InTurn(k) == nodes[i]
    {
      k := ConsecutiveCoverResidues(first, |ids|, i);
    }

    /** The counter has moved from `from` to the first instance in turn that is eligible. */
    ghost predicate FirstInTurn(r: Instance, from: nat, lower: bool)
      requires Shape()
      reads `nodes, `ids, `instances, `rollingNum, nodes`status, nodes`connections, nodes`hasUnused
    {
      && ids != [] && from < rollingNum && r == InTurn(rollingNum) && Eligible(r, lower)
      && forall k: nat :: from < k < rollingNum ==> !Eligible(InTurn(k), lower)
    }

    /** One round of _select_instance_rolling: try every instance once, in turn, starting after
        the last one tried.  Unless the 64-bit counter wraps around meanwhile, the round finds an
        instance if there is one, and it is the first in turn. */
    method RollOnce(lower: bool) returns (r: Instance?)
      requires Shape()
      modifies `rollingNum
      ensures r != null ==> Member(r) && Eligible(r, lower)
      ensures old(rollingNum) + |ids| < TWO64 ==>
        && rollingNum <= old(rollingNum) + |ids|
        && (r == null ==> forall i :: 0 <= i < |nodes| ==> !Eligible(nodes[i], lower))
        && (r != null ==> FirstInTurn(r, old(rollingNum), lower))
    {
      hide InTurn, Eligible;
      ghost var first := rollingNum + 1;
      var rollTime := 0;
      while rollTime < |instances|
        invariant 0 <= rollTime <= |ids|
        invariant old(rollingNum) + |ids| < TWO64 ==>
          && rollingNum + 1 == first + rollTime
          && forall k: nat :: first <= k < first + rollTime ==> !Eligible(InTurn(k), lower)
      {
        var node := NextInTurn();
        if Eligible(node, lower) {
          return node;
        }
        rollTime := rollTime + 1;
      }
      if old(rollingNum) + |ids| < TWO64 {
        forall i | 0 <= i < |nodes| ensures !Eligible(nodes[i], lower) {
          var k := RoundCovers(first, i);
        }
      }
      r := null;
    }

    /** _select_instance_rolling: a round for instances that are on line (or delayed, if the
        caller will take that), then a round that takes delayed ones too. */
    method SelectRolling(lower: bool) returns (r: Instance?)
      requires Shape()
      modifies `rollingNum
      ensures r != null ==>
        && Member(r) && Eligible(r, true) && (r.status == OnLine || r.status == Delay)
        && (r.connections < maxConnections || r.hasUnused)
      ensures old(rollingNum) + 2 * |ids| < TWO64 ==>
        && (r == null <==> forall i :: 0 <= i < |nodes| ==> !Eligible(nodes[i], true))
        && (r == null ==> forall i :: 0 <= i < |nodes| ==>
              || (nodes[i].status != OnLine && nodes[i].status != Delay)
              || (nodes[i].connections >= maxConnections && !nodes[i].hasUnused))
        && (!lower && r != null && r.status == Delay ==>
              && (forall i :: 0 <= i < |nodes| ==> !Eligible(nodes[i], false))
              && (forall i :: 0 <= i < |nodes| && nodes[i].status == OnLine ==>
                    nodes[i].connections >= maxConnections && !nodes[i].hasUnused))
        && (r != null && (lower || r.status == OnLine) ==> FirstInTurn(r, old(rollingNum), lower))
    {
      r := RollOnce(lower);
      if r == null && !lower {
        r := RollOnce(true);
      }
    }

    /** The walk lands on an instance of its own interval: it recomputes its weight for the
        requests in flight, and the pool hears of it. */
    method Land(node: Instance, offset: int, now: int) returns (chosen: bool, defined: bool)
      requires Valid() && Member(node)
      modifies `weights, `lefts, `total, nodes`left, node`weight
      ensures defined ==> Valid() && weights == old(weights)[node.index := node.weight]
      ensures old(Ready()) ==> defined
      ensures chosen ==> defined && node.status == OnLine && offset <= node.weight
      ensures defined && old(node.weight) != 0 ==>
        && (chosen <==> offset <= node.weight)
        && Recomputed(node, now) == Value(node.weight)
    {
      hide InflightWeight, Product;
      assert node.Valid() && node.Consistent() && (Ready() ==> node.Punishable());
      var r;
      chosen, r := node.RecalInflight(now, offset, LoadOf(node));
      defined := r.Value?;
      if defined {
        assert node.Consistent();
        StillValid(node);
        StillConsistent(node);
        Absorb(node, r.v);
      }
    }

    lemma WeightsNonNegative()
      requires Viewed() && InstancesValid()
      ensures NonNegative(weights)
    {
      forall k | 0 <= k < |weights| ensures weights[k] >= 0 {
        assert nodes[k].Valid();
      }
    }

    /** fast_rand_less_than: the k-th random number, below `bound`. */
    static function Dice(rolls: nat -> nat, k: nat, bound: int): int {
      if bound > 0 then rolls(k) % bound else 0
    }

    /** The part of the selection loop that only walks: from the root towards the dice, for at
        most `budget` nodes.  Whatever the caches hold, it visits the nodes of Walk. */
    method Descend(dice: int, budget: nat) returns (p: Pick, steps: nat)
      requires Shape() && Viewed() && ids != []
      ensures steps <= budget ==> p == Walk(weights, lefts, 0, dice) && steps == WalkSteps(weights, lefts, 0, dice)
      ensures steps > budget ==> steps == budget + 1 <= WalkSteps(weights, lefts, 0, dice)
    {
      var index: nat, rest := 0, dice;
      var n := |ids|;
      steps := 0;
      while true
        invariant index < n && steps <= budget
        invariant Walk(weights, lefts, 0, dice) == Walk(weights, lefts, index, rest)
        invariant WalkSteps(weights, lefts, 0, dice) == steps + WalkSteps(weights, lefts, index, rest)
        decreases n - index
      {
        steps := steps + 1;
        if steps > budget {
          return FellOff, steps;
        }
        var node := instances[ids[index]];
        var left := node.left;
        var self := node.weight;
        if rest < left {
          if index * 2 + 1 >= n {
            return FellOff, steps;
          }
          index := index * 2 + 1;
        } else if rest >= left + self {
          if index * 2 + 2 >= n {
            return FellOff, steps;
          }
          rest := rest - (left + self);
          index := index * 2 + 2;
        } else {
          return Hit(index, rest - left), steps;
        }
      }
    }

    /** One throw of the dice: walk, land, and ask the instance.  In a settled pool the walk ends
        on an instance (or exhausts the budget); it never falls off the tree.  The instance takes the
        request exactly if the dice is not above its new weight and it has a connection to spare. */
    method Throw(dice: int, budget: nat, now: int)
      returns (node: Instance?, steps: nat, accepted: bool, defined: bool, ghost offset: int)
      requires Valid() && 0 <= dice < total
      modifies `weights, `lefts, `total, nodes`left, nodes`weight
      ensures defined ==> Valid()
      ensures nodes != [] && steps > 0 && (node == null <==> steps > budget)
      ensures node == null ==> defined && !accepted && budget < WalkSteps(old(weights), old(lefts), 0, dice)
                               && weights == old(weights) && lefts == old(lefts) && total == old(total)
      ensures node != null ==> Member(node) && Walk(old(weights), old(lefts), 0, dice) == Hit(node.index, offset)
                               && steps == WalkSteps(old(weights), old(lefts), 0, dice)
      ensures node != null && defined ==>
                && weights == old(weights)[node.index := node.weight]
                && Recomputed(node, now) == Value(node.weight)
                && (accepted <==> offset <= node.weight && HasRoom(node))
      ensures old(Ready()) ==> defined
      ensures accepted ==> defined && node != null && Eligible(node, false)
    {
      WeightsNonNegative();
      WalkLandsOnInstance(weights, lefts, dice);
      var p;
      p, steps := Descend(dice, budget);
      offset := 0;
      if steps > budget {
        return null, steps, false, true, 0;
      }
      offset := p.offset;
      node := instances[ids[p.index]];
      hide InflightWeight;
      accepted, defined := Land(node, p.offset, now);
      accepted := accepted && (node.connections < maxConnections || node.hasUnused);
    }

    /** What was found out about the instance landed on, at the time `now`. */
    ghost predicate Judged(l: Landing, now: int)
      reads `nodes, `configured, nodes`base, nodes`beginTimeCount, nodes`beginTimeSum, nodes`avgLatency,
            nodes`dev, nodes`connections, nodes`hasUnused
    {
      && l.index < |nodes| && Recomputed(nodes[l.index], now) == Value(l.after)
      && l.room == HasRoom(nodes[l.index])
    }

    /** The walk for the k-th random number needs more visits than are left. */
    ghost predicate Spent(rolls: nat -> nat, k: nat, left: int)
      reads `weights, `lefts, `total
    {
      && |weights| == |lefts| > 0
      && WalkSteps(weights, lefts, 0, Dice(rolls, k, total)) > left
    }

    /** Recomputing the weight of an instance that has any changes nothing, and it has room. */
    ghost predicate Steady(now: int)
      reads `nodes, `configured, nodes`weight, nodes`base, nodes`beginTimeCount, nodes`beginTimeSum, nodes`avgLatency,
            nodes`dev, nodes`connections, nodes`hasUnused
    {
      forall i :: 0 <= i < |nodes| ==> SteadyAt(nodes[i], now)
    }

    ghost predicate SteadyAt(node: Instance, now: int)
      reads `configured, node`weight, node`base, node`beginTimeCount, node`beginTimeSum, node`avgLatency, node`dev,
            node`connections, node`hasUnused
    {
      node.weight != 0 ==> Recomputed(node, now) == Value(node.weight) && HasRoom(node)
    }

    /** The next throw, after those of `landings`. */
    method ThrowNext(rolls: nat -> nat, now: int, budget: nat, k: nat,
                     ghost landings: seq<Landing>, ghost first: seq<int>)
      returns (node: Instance?, steps: nat, accepted: bool, defined: bool, ghost l: Landing)
      requires Valid() && total > 0 && budget <= 50
      requires k == |landings| && Thrown(landings, rolls, first) && weights == After(landings, first)
      modifies `weights, `lefts, `total, nodes`left, nodes`weight
      ensures defined ==> Valid()
      ensures steps > 0 && (node == null <==> steps > budget)
      ensures node == null ==> defined && !accepted && (|nodes| < Pow2(50) ==> budget < 50) && Spent(rolls, k, budget)
      ensures node != null && defined ==>
                && Member(node) && l.index == node.index && l.steps == steps
                && Thrown(landings + [l], rolls, first) && weights == After(landings + [l], first)
                && l.weights == old(weights) && l.lefts == old(lefts) && l.total == old(total)
                && Judged(l, now) && (accepted <==> !Refused(l))
                && node.index < |old(weights)|
                && (old(Steady(now)) ==> accepted && Owns(old(weights), node.index, Dice(rolls, k, old(total))))
      ensures old(Ready()) ==> defined
      ensures accepted ==> defined && node != null && Eligible(node, false)
    {
      hide Walk, WalkSteps, Exact, Sum, Thrown, Recomputed, HasRoom, Owns;
      hide InstancesValid, WeightFollowsStatus, Ready, Eligible;
      WeightsNonNegative();
      var dice := Dice(rolls, k, total);
      l := Landing(weights, lefts, total, 0, 0, 0, 0, false);
      ghost var offset;
      node, steps, accepted, defined, offset := Throw(dice, budget, now);
      if node == null {
        if |nodes| < Pow2(50) {
          WalkEndsWithinLoopLimit(l.weights, l.lefts, dice);
        }
      } else if defined {
        l := l.(steps := steps, index := node.index, offset := offset, after := node.weight, room := HasRoom(node));
        OneMoreThrow(landings, l, rolls, first);
        if old(Steady(now)) {
          assert old(SteadyAt(node, now));
          WalkLandsOnInstance(l.weights, l.lefts, dice);
          WalkFindsOwner(l.weights, l.lefts, dice, l.index);
        }
      }
    }

    /** Every landing was judged at its time; the first `retries` of them were refused, and no others. */
    ghost predicate History(ls: seq<Landing>, clock: nat -> int, retries: nat)
      reads `nodes, `configured, nodes`base, nodes`beginTimeCount, nodes`beginTimeSum, nodes`avgLatency,
            nodes`dev, nodes`connections, nodes`hasUnused
    {
      forall k: nat :: k < |ls| ==> Judged(ls[k], clock(k)) && (Refused(ls[k]) <==> k < retries)
    }

    lemma LongerHistory(ls: seq<Landing>, l: Landing, clock: nat -> int)
      requires History(ls, clock, |ls|) && Judged(l, clock(|ls|))
      ensures History(ls + [l], clock, if Refused(l) then |ls| + 1 else |ls|)
    {
      hide Judged, Refused;
    }

    /** The loop of the selection: it ends with an instance that takes the request, or without one when
        the total is 0 or the visits are used up. */
    method TrySelect(rolls: nat -> nat, clock: nat -> int)
      returns (r: Instance?, defined: bool, retries: nat, ghost landings: seq<Landing>)
      requires Valid()
      modifies `weights, `lefts, `total, nodes`left, nodes`weight
      ensures defined ==> Valid()
      ensures old(Ready()) ==> defined
      ensures |landings| == (if r != null then retries + 1 else retries) && Visits(landings) <= 50
      ensures Thrown(landings, rolls, old(weights)) && History(landings, clock, retries)
      ensures r != null ==> defined && Member(r) && Eligible(r, false) && r.index == landings[retries].index
      ensures defined && r == null ==> total <= 0 || Spent(rolls, retries, 50 - Visits(landings))
      ensures defined && old(total) > 0 && |old(nodes)| < Pow2(50) ==> landings != []
      ensures defined && old(Steady(clock(0))) && old(total) > 0 && |old(nodes)| < Pow2(50) ==>
                && r != null && retries == 0 && r.index < |old(weights)|
                && Owns(old(weights), r.index, Dice(rolls, 0, old(total)))
    {
      hide Thrown, After, Valid, Eligible, Judged, Steady, Owns, Refused, History, Ready, Spent;
      NothingThrown(rolls, weights);
      NoHistory(clock);
      r, defined, retries, landings := null, true, 0, [];
      var nloop := 0;
      ghost var steady := Steady(clock(0));
      while total > 0
        invariant Valid() && defined && r == null && nloop == Visits(landings) <= 50 && |landings| == retries
        invariant Thrown(landings, rolls, old(weights)) && weights == After(landings, old(weights))
        invariant History(landings, clock, retries)
        invariant landings == [] ==> total == old(total) && weights == old(weights)
        invariant steady ==> landings == [] && Steady(clock(0))
        invariant old(Ready()) ==> Ready()
        decreases 50 - nloop
      {
        var steps, accepted;
        ghost var l;
        r, steps, accepted, defined, l :=
          ThrowNext(rolls, clock(retries), 50 - nloop, retries, landings, old(weights));
        if !defined {
          r := null;
          return;
        }
        if r == null {
          break;
        }
        VisitsOfMore(landings, l);
        LongerHistory(landings, l, clock);
        landings := landings + [l];
        nloop := nloop + steps;
        if accepted {
          return;
        }
        r := null;
        retries := retries + 1;
      }
    }

    lemma NoHistory(clock: nat -> int)
      ensures History([], clock, 0)
    {
    }

    /** _select_instance_local_aware.  `rolls` are the random numbers drawn, `clock` the times
        read; `retries` counts the landings that were turned down.  The source runs the walk and
        the retries as one loop of at most 50 node visits.

        Each throw walks over weights that differ from those before it where the previous one landed,
        and nowhere else.  The instance it lands on recomputes its weight, and takes the request exactly
        if the dice is not above it and it has a connection to spare; the first one that does is
        returned.  The rolling fallback, which alone can offer a delayed instance, is used only when the
        total is 0 or the visits are used up.  Below 2^50 instances the first throw lands.  In a pool
        that is ready no arithmetic is undefined.

        Where recomputing changes nothing and all have room, the instance that owns the first dice is
        returned: selection is proportional to weight. */
    method SelectLocalAware(rolls: nat -> nat, clock: nat -> int)
      returns (r: Instance?, defined: bool, byTree: bool, retries: nat, ghost landings: seq<Landing>)
      requires Valid()
      modifies `rollingNum, `weights, `lefts, `total, nodes`left, nodes`weight
      ensures defined ==> Valid()
      ensures old(Ready()) ==> defined && Ready()
      ensures r != null ==> Member(r) && Eligible(r, !byTree)
      ensures |landings| == (if byTree then retries + 1 else retries) && Visits(landings) <= 50
      ensures Thrown(landings, rolls, old(weights)) && History(landings, clock, retries)
      ensures byTree ==> r != null && r.index == landings[retries].index
      ensures defined && !byTree ==>
                && (total <= 0 || Spent(rolls, retries, 50 - Visits(landings)))
                && (old(rollingNum) + 2 * |ids| < TWO64 ==>
                      && (r == null <==> forall i :: 0 <= i < |nodes| ==> !Eligible(nodes[i], true))
                      && (r != null ==> FirstInTurn(r, old(rollingNum), true)))
      ensures defined && old(total) > 0 && |old(nodes)| < Pow2(50) ==> landings != []
      ensures defined && old(Steady(clock(0))) && old(total) > 0 && |old(nodes)| < Pow2(50) ==>
                && byTree && retries == 0 && r.index < |old(weights)|
                && Owns(old(weights), r.index, Dice(rolls, 0, old(total)))
    {
      hide Thrown, History, Steady, Owns, Ready, Spent, Eligible;
      r, defined, retries, landings := TrySelect(rolls, clock);
      byTree := r != null;
      if defined && !byTree {
        r := SelectRolling(true);
      }
    }

    /** A pool with no request in flight, every weight its base and a connection to spare everywhere is
        steady. */
    lemma CalmIsSteady(now: int)
      requires Valid()
      requires forall i :: 0 <= i < |nodes| ==> nodes[i].beginTimeCount <= 0 && HasRoom(nodes[i])
      requires forall i :: 0 <= i < |nodes| && nodes[i].weight != 0 ==> nodes[i].weight == nodes[i].base
      ensures Steady(now)
    {
      forall i | 0 <= i < |nodes| ensures SteadyAt(nodes[i], now) {
        assert nodes[i].Valid();
      }
    }
  }
}
