/** Which partitions of a range-partitioned table a row or a query touches, for every kind of user:
    normal or attached ("additional") ranges, hot or cold, and tables being switched from one engine
    to another. */
module RangePartition {
  import opened Options
  import opened Words

  datatype Kind = Default | NewStatsEngine | Additional

  /** A value of the partition column, by its place in the column's order. */
  datatype Value = Null | At(n: int) | MaxValue

  /** The bounds of a range are literals. */
  type Bound = v: Value | !v.Null? witness At(0)

  /** The sign of ExprValue::compare with a bound; a NULL is below every bound. */
  function Compare(a: Value, b: Bound): int {
    if a.MaxValue? || b.MaxValue? then (if a == b then 0 else if a.MaxValue? then 1 else -1)
    else if a.Null? then -1
    else if a.n < b.n then -1 else if a.n > b.n then 1 else 0
  }

  datatype Range = Range(kind: Kind, id: int, left: Bound, right: Bound, cold: bool, isolation: bool)

  datatype User = User(additional: bool, kind: Kind, switched: bool)

  /** The table's ranges, in order, and the kind of its primary ranges. */
  datatype Table = Table(ranges: seq<Range>, additional: seq<Range>, primary: Kind)

  /** What a user may reach. */
  datatype Access = Access(additional: bool, kind: Kind, switched: bool)

  /** A switched table is not written, and read from the other engine. */
  function Resolve(user: Option<User>, isRead: bool): Option<Access> {
    match user
    case None => Some(Access(false, Default, false))
    case Some(u) =>
      if u.switched && !isRead then None
      else if u.switched then Some(Access(u.additional, if u.kind == Default then NewStatsEngine else Default, true))
      else Some(Access(u.additional, u.kind, false))
  }

  /** is_specified_range */
  predicate Specified(t: Table, r: Range, a: Access) {
    r.cold || (if a.switched && r.isolation then r.kind == t.primary else a.kind == r.kind)
  }

  predicate Contains(r: Range, v: Value) {
    Compare(v, r.left) >= 0 && Compare(v, r.right) < 0
  }

  /** The range contains the value, and the access, if it matters, specifies the range. */
  predicate Matches(t: Table, r: Range, a: Option<Access>, v: Value) {
    (a.Some? ==> Specified(t, r, a.value)) && Contains(r, v)
  }

  /** The id of the last of the ranges that match, or -1. */
  function LastMatch(t: Table, rs: seq<Range>, a: Option<Access>, v: Value): (id: int)
    ensures (id == -1 && forall i :: 0 <= i < |rs| ==> !Matches(t, rs[i], a, v))
            || exists i :: 0 <= i < |rs| && rs[i].id == id && Matches(t, rs[i], a, v)
                           && forall k :: i < k < |rs| ==> !Matches(t, rs[k], a, v)
  {
    if rs == [] then -1
    else if Matches(t, rs[|rs| - 1], a, v) then rs[|rs| - 1].id
    else LastMatch(t, rs[..|rs| - 1], a, v)
  }

  /** The partition of a value, and the attached partition read beside it (-1 when there is none). */
  datatype Place = Place(id: int, another: int)

  function PlaceOf(t: Table, user: Option<User>, v: Value, isRead: bool): Place {
    match Resolve(user, isRead)
    case None => Place(-1, -1)
    case Some(a) =>
      if a.additional then Place(LastMatch(t, t.additional, None, v), -1)
      else
        var id := LastMatch(t, t.ranges, Some(a), v);
        var another := if isRead then Narrow(LastMatch(t, t.additional, None, v)) else -1;
        if !isRead then Place(id, -1) else if id == -1 then Place(another, -1) else Place(id, another)
  }

  /** calc_partition */
  method CalcPartition(t: Table, user: Option<User>, v: Value, isRead: bool) returns (id: int, another: int)
    ensures Place(id, another) == PlaceOf(t, user, v, isRead)
  {
    another := -1;
    var access := Resolve(user, isRead);
    if access.None? {
      return -1, -1;
    }
    if access.value.additional {
      id := Search(t, t.additional, None, v);
      return id, -1;
    }
    id := Search(t, t.ranges, access, v);
    if isRead {
      var attached := Search(t, t.additional, None, v);
      var narrowed := Narrow(attached);
      if id == -1 {
        id := narrowed;
      } else {
        another := narrowed;
      }
    }
  }

  /** The loops of calc_partition, from the last range to the first. */
  method Search(t: Table, rs: seq<Range>, a: Option<Access>, v: Value) returns (id: int)
    ensures id == LastMatch(t, rs, a, v)
  {
    id := -1;
    var n := |rs|;
    assert rs[..n] == rs;
    while n > 0
      invariant 0 <= n <= |rs| && id == -1 && LastMatch(t, rs, a, v) == LastMatch(t, rs[..n], a, v)
    {
      assert rs[..n][..n - 1] == rs[..n - 1];
      var r := rs[n - 1];
      if (a.None? || Specified(t, r, a.value)) && Contains(r, v) {
        return r.id;
      }
      n := n - 1;
    }
  }

  // ----- Queries

  /** Bounds of a query; NULL is no bound. */
  datatype Query = Query(left: Value, leftOpen: bool, right: Value, rightOpen: bool)

  /** The values a query asks for. */
  predicate Asks(q: Query, v: Value) {
    && v.At?
    && (q.left.Null? || Compare(v, q.left) > 0 || (!q.leftOpen && Compare(v, q.left) == 0))
    && (q.right.Null? || Compare(v, q.right) < 0 || (!q.rightOpen && Compare(v, q.right) == 0))
  }

  /** range_match_fn */
  predicate Meets(q: Query, r: Range) {
    && (q.left.Null? || Compare(q.left, r.right) < 0)
    && (q.right.Null? || (if q.rightOpen then Compare(q.right, r.left) > 0 else Compare(q.right, r.left) >= 0))
  }

  /** Ids of the ranges that pass both tests. */
  function Ids(t: Table, rs: seq<Range>, a: Option<Access>, q: Option<Query>): set<int> {
    set i | 0 <= i < |rs| && (a.Some? ==> Specified(t, rs[i], a.value)) && (q.Some? ==> Meets(q.value, rs[i])) :: rs[i].id
  }

  /** The partitions a user reaches, all of them or those that meet a query; None when refused. */
  function Reached(t: Table, user: Option<User>, q: Option<Query>, isRead: bool): Option<set<int>> {
    match Resolve(user, isRead)
    case None => None
    case Some(a) =>
      if a.additional then Some(Ids(t, t.additional, None, q))
      else if isRead then Some(Ids(t, t.ranges, Some(a), q) + Ids(t, t.additional, None, q))
      else Some(Ids(t, t.ranges, Some(a), q))
  }

  method Collect(t: Table, rs: seq<Range>, a: Option<Access>, q: Option<Query>, ids0: set<int>) returns (ids: set<int>)
    ensures ids == ids0 + Ids(t, rs, a, q)
  {
    ids := ids0;
    var i := 0;
    while i < |rs|
      invariant 0 <= i <= |rs| && ids == ids0 + Ids(t, rs[..i], a, q)
    {
      var r := rs[i];
      IdsStep(t, rs, a, q, i);
      if (a.None? || Specified(t, r, a.value)) && (q.None? || Meets(q.value, r)) {
        ids := ids + {r.id};
      }
      i := i + 1;
    }
    assert rs[..i] == rs;
  }

  lemma IdsStep(t: Table, rs: seq<Range>, a: Option<Access>, q: Option<Query>, i: nat)
    requires i < |rs|
    ensures Ids(t, rs[..i + 1], a, q) == Ids(t, rs[..i], a, q) +
            if (a.Some? ==> Specified(t, rs[i], a.value)) && (q.Some? ==> Meets(q.value, rs[i])) then {rs[i].id} else {}
  {
  }

  /** calc_partitions, for a plain column; None is the return value -1 */
  method CalcPartitions(t: Table, user: Option<User>, q: Query, isRead: bool) returns (r: Option<set<int>>)
    ensures r == Reached(t, user, Some(q), isRead)
  {
    var access := Resolve(user, isRead);
    if access.None? {
      return None;
    }
    var ids := {};
    if access.value.additional {
      ids := Collect(t, t.additional, None, Some(q), ids);
      assert ids == Ids(t, t.additional, None, Some(q));
      return Some(ids);
    }
    ids := Collect(t, t.ranges, access, Some(q), ids);
    assert ids == Ids(t, t.ranges, access, Some(q));
    if isRead {
      ids := Collect(t, t.additional, None, Some(q), ids);
    }
    return Some(ids);
  }

  /** get_specified_partition_ids */
  method GetSpecifiedPartitionIds(t: Table, user: Option<User>, isRead: bool) returns (r: Option<set<int>>)
    ensures r == Reached(t, user, None, isRead)
  {
    var access := Resolve(user, isRead);
    if access.None? {
      return None;
    }
    var ids := {};
    if access.value.additional {
      ids := Collect(t, t.additional, None, None, ids);
      assert ids == Ids(t, t.additional, None, None);
      return Some(ids);
    }
    ids := Collect(t, t.ranges, access, None, ids);
    assert ids == Ids(t, t.ranges, access, None);
    if isRead {
      ids := Collect(t, t.additional, None, None, ids);
    }
    return Some(ids);
  }

  // ----- Who sees what, on the fields

  /** The ranges a user sees that is not confined to attached partitions: cold ones, and hot ones of
      the user's kind (the default one without a user).  While the table is being switched it is the
      other kind, and in isolated ranges the table's primary one. */
  ghost predicate Sees(t: Table, user: Option<User>, r: Range) {
    || r.cold
    || (user.None? && r.kind == Default)
    || (user.Some? && !user.value.switched && r.kind == user.value.kind)
    || (user.Some? && user.value.switched && r.isolation && r.kind == t.primary)
    || (user.Some? && user.value.switched && !r.isolation
        && r.kind == if user.value.kind == Default then NewStatsEngine else Default)
  }

  /** A switched table is not written. */
  ghost predicate Allowed(user: Option<User>, isRead: bool) {
    user.Some? && user.value.switched ==> isRead
  }

  ghost predicate Confined(user: Option<User>) {
    user.Some? && user.value.additional
  }

  /** Ranges are closed at the left and open at the right; MAXVALUE is above every value, NULL below. */
  lemma ContainsIff(r: Range, v: Value)
    ensures Contains(r, v) <==> v.At? && r.left.At? && r.left.n <= v.n && (r.right.MaxValue? || v.n < r.right.n)
  {
  }

  /** The last of the ranges that `sees` picks out of those that contain the value. */
  ghost predicate LastOf(rs: seq<Range>, i: nat, v: Value, sees: Range -> bool) {
    && i < |rs| && sees(rs[i]) && Contains(rs[i], v)
    && forall k :: i < k < |rs| ==> !(sees(rs[k]) && Contains(rs[k], v))
  }

  lemma AccessIsSight(t: Table, user: Option<User>, isRead: bool, r: Range)
    requires Allowed(user, isRead)
    ensures Resolve(user, isRead).Some? && Resolve(user, isRead).value.additional == Confined(user)
    ensures Specified(t, r, Resolve(user, isRead).value) <==> Sees(t, user, r)
  {
  }

  /** A value belongs to the last range that the user sees and that contains it. */
  lemma SeenPlace(t: Table, user: Option<User>, v: Value, isRead: bool, i: nat)
    requires Allowed(user, isRead) && !Confined(user)
    requires LastOf(t.ranges, i, v, r => Sees(t, user, r)) && t.ranges[i].id != -1
    ensures PlaceOf(t, user, v, isRead).id == t.ranges[i].id
  {
    var a := Resolve(user, isRead);
    forall r ensures Specified(t, r, a.value) <==> Sees(t, user, r) {
      AccessIsSight(t, user, isRead, r);
    }
    AccessIsSight(t, user, isRead, t.ranges[i]);
    hide Sees, Specified, Contains, Resolve;
    LastMatchAt(t, t.ranges, a, v, i);
  }

  lemma LastMatchAt(t: Table, rs: seq<Range>, a: Option<Access>, v: Value, i: nat)
    requires i < |rs| && Matches(t, rs[i], a, v) && forall k :: i < k < |rs| ==> !Matches(t, rs[k], a, v)
    ensures LastMatch(t, rs, a, v) == rs[i].id
  {
    var id := LastMatch(t, rs, a, v);
    var j :| && 0 <= j < |rs| && rs[j].id == id && Matches(t, rs[j], a, v)
             && forall k :: j < k < |rs| ==> !Matches(t, rs[k], a, v);
    assert i == j;
  }

  /** Without one, a write finds no partition, and a read falls back on the attached one. */
  lemma UnseenPlace(t: Table, user: Option<User>, v: Value, isRead: bool)
    requires Allowed(user, isRead) && !Confined(user)
    requires forall i :: 0 <= i < |t.ranges| ==> !(Sees(t, user, t.ranges[i]) && Contains(t.ranges[i], v))
    ensures PlaceOf(t, user, v, isRead) ==
            Place(if isRead then Narrow(LastMatch(t, t.additional, None, v)) else -1, -1)
  {
    forall r ensures Specified(t, r, Resolve(user, isRead).value) <==> Sees(t, user, r) {
      AccessIsSight(t, user, isRead, r);
    }
    AccessIsSight(t, user, isRead, Range(Default, 0, At(0), At(0), false, false));
    hide Sees, Specified, Contains, Resolve;
  }

  /** The last attached range that contains the value is all that a confined user reads or writes, and
      what others read beside their own. */
  lemma AttachedPlace(t: Table, user: Option<User>, v: Value, isRead: bool, i: nat)
    requires Allowed(user, isRead) && LastOf(t.additional, i, v, r => true)
    requires !Confined(user) ==> exists k: nat :: LastOf(t.ranges, k, v, r => Sees(t, user, r)) && t.ranges[k].id != -1
    ensures Confined(user) ==> PlaceOf(t, user, v, isRead) == Place(t.additional[i].id, -1)
    ensures !Confined(user) ==>
              PlaceOf(t, user, v, isRead).another == if isRead then Narrow(t.additional[i].id) else -1
  {
    AccessIsSight(t, user, isRead, t.additional[i]);
    LastMatchAt(t, t.additional, None, v, i);
    if !Confined(user) {
      var k: nat :| LastOf(t.ranges, k, v, r => Sees(t, user, r)) && t.ranges[k].id != -1;
      SeenPlace(t, user, v, isRead, k);
      UnlessRefused(t, user, v, isRead);
    }
  }

  lemma UnlessRefused(t: Table, user: Option<User>, v: Value, isRead: bool)
    requires Allowed(user, isRead) && !Confined(user)
    ensures LastMatch(t, t.ranges, Resolve(user, isRead), v) != -1 ==>
              PlaceOf(t, user, v, isRead).another == if isRead then Narrow(LastMatch(t, t.additional, None, v)) else -1
    ensures LastMatch(t, t.ranges, Resolve(user, isRead), v) == -1 && !isRead ==> PlaceOf(t, user, v, isRead).id == -1
  {
  }

  /** A write to a switched table is refused. */
  lemma SwitchedWriteIsRefused(t: Table, user: Option<User>, v: Value, q: Option<Query>)
    requires !Allowed(user, false)
    ensures PlaceOf(t, user, v, false) == Place(-1, -1) && Reached(t, user, q, false) == None
  {
  }

  /** A query reaches the ranges that the user sees and that meet it, and a read the attached ones. */
  lemma ReachedIff(t: Table, user: Option<User>, q: Option<Query>, isRead: bool, id: int)
    requires Allowed(user, isRead)
    ensures Reached(t, user, q, isRead).Some?
    ensures id in Reached(t, user, q, isRead).value <==>
            || (!Confined(user) && exists i ::
                  && 0 <= i < |t.ranges| && t.ranges[i].id == id
                  && Sees(t, user, t.ranges[i]) && (q.Some? ==> Meets(q.value, t.ranges[i])))
            || ((Confined(user) || isRead) && exists i ::
                  && 0 <= i < |t.additional| && t.additional[i].id == id
                  && (q.Some? ==> Meets(q.value, t.additional[i])))
  {
    forall r ensures Specified(t, r, Resolve(user, isRead).value) <==> Sees(t, user, r) {
      AccessIsSight(t, user, isRead, r);
    }
    AccessIsSight(t, user, isRead, Range(Default, 0, At(0), At(0), false, false));
    hide Sees, Specified, Meets, Resolve;
  }

  /** Pruning is exact, but for an open left end, which it takes for a closed one: of a query that asks
      for something, the ranges are left that hold a value it asks for. */
  lemma MeetsIff(q: Query, r: Range, w: Value)
    requires !q.left.MaxValue? && !q.right.MaxValue?
    requires Asks(q.(leftOpen := false), w) && exists v :: Contains(r, v)
    ensures Meets(q, r) <==> exists v :: Contains(r, v) && Asks(q.(leftOpen := false), v)
  {
    var c := q.(leftOpen := false);
    if Meets(q, r) {
      var v := At(if q.left.Null? || q.left.n < r.left.n then r.left.n else q.left.n);
      assert Contains(r, v) && Asks(c, v);
    } else if v :| Contains(r, v) && Asks(c, v) {
      AskedIsMet(c, r, v);
    }
  }

  // ----- What is read, written and pruned

  /** A range with a value that a query asks for meets the query. */
  lemma AskedIsMet(q: Query, r: Range, v: Value)
    requires Contains(r, v) && Asks(q, v)
    ensures Meets(q, r)
  {
  }

  lemma MatchIsCollected(t: Table, rs: seq<Range>, a: Option<Access>, q: Query, v: Value)
    requires Asks(q, v)
    ensures var id := LastMatch(t, rs, a, v); id == -1 || id in Ids(t, rs, a, Some(q))
  {
  }

  /** The id that a read takes through an int is that of the attached partition; users confined to
      attached partitions, and writes, do not take it. */
  predicate Narrows(user: Option<User>, isRead: bool) {
    isRead && (user.Some? ==> !user.value.additional)
  }

  /** The id comes out as it was, or as that of no partition. */
  predicate Harmless(id: int) {
    Narrow(id) == id || Narrow(id) == -1
  }

  /** The partitions of a value are among those of every query that asks for it. */
  predicate PlaceWithin(t: Table, user: Option<User>, q: Query, v: Value, isRead: bool) {
    var p, ids := PlaceOf(t, user, v, isRead), Reached(t, user, Some(q), isRead);
    if ids.None? then p == Place(-1, -1)
    else (p.id == -1 || p.id in ids.value) && (p.another == -1 || p.another in ids.value)
  }

  /** They are, for every user, unless a read narrows the attached partition's id to another one. */
  lemma PlaceIsReached(t: Table, user: Option<User>, q: Query, v: Value, isRead: bool)
    requires Asks(q, v) && (Narrows(user, isRead) ==> Harmless(LastMatch(t, t.additional, None, v)))
    ensures PlaceWithin(t, user, q, v, isRead)
  {
    MatchIsCollected(t, t.additional, None, q, v);
    match Resolve(user, isRead) {
      case None =>
      case Some(a) => MatchIsCollected(t, t.ranges, Some(a), q, v);
    }
  }

  /** A read that is not confined to attached partitions reports the attached one exactly when its id
      fits an int. */
  lemma AttachedIsReportedIff(t: Table, user: Option<User>, v: Value)
    requires user.Some? ==> !user.value.additional
    ensures var p, x := PlaceOf(t, user, v, true), LastMatch(t, t.additional, None, v);
            var normal := LastMatch(t, t.ranges, Resolve(user, true), v);
            (if normal == -1 then p.id else p.another) == x <==> -0x8000_0000 <= x < 0x8000_0000
  {
  }

  /** A table with one attached partition, of a given id. */
  function Lone(id: int): Table {
    Table([], [Range(Additional, id, At(0), At(10), false, false)], Default)
  }

  lemma LoneIds(id: int, a: Option<Access>, q: Query)
    requires Asks(q, At(5))
    ensures LastMatch(Lone(id), Lone(id).additional, None, At(5)) == id
    ensures Ids(Lone(id), Lone(id).additional, None, Some(q)) == {id}
    ensures Ids(Lone(id), Lone(id).ranges, a, Some(q)) == {}
    ensures LastMatch(Lone(id), Lone(id).ranges, a, At(5)) == -1
  {
    var t := Lone(id);
    assert t.additional[..0] == [];
    AskedIsMet(q, t.additional[0], At(5));
  }

  /** The condition on the id is exact: any other id leads a read of some table to a partition that the
      query does not reach. */
  lemma PlaceIsReachedIff(id: int)
    ensures Harmless(id) <==>
            forall t: Table, user: Option<User>, q: Query, v: Value, isRead: bool ::
              Asks(q, v) && LastMatch(t, t.additional, None, v) == id ==> PlaceWithin(t, user, q, v, isRead)
  {
    if Harmless(id) {
      forall t: Table, user: Option<User>, q: Query, v: Value, isRead: bool |
        Asks(q, v) && LastMatch(t, t.additional, None, v) == id
        ensures PlaceWithin(t, user, q, v, isRead)
      {
        PlaceIsReached(t, user, q, v, isRead);
      }
    } else {
      var q := Query(At(5), false, At(5), false);
      LoneIds(id, Resolve(None, true), q);
      assert !PlaceWithin(Lone(id), None, q, At(5), true);
    }
  }

  /** Partition 4294967303 is taken for partition 7, which does not exist. */
  lemma LargeIdIsMistaken(t: Table, q: Query)
    requires t == Lone(4294967303) && q == Query(At(5), false, At(5), false)
    ensures PlaceOf(t, None, At(5), true) == Place(7, -1) && Reached(t, None, Some(q), true) == Some({4294967303})
  {
    LoneIds(4294967303, Resolve(None, true), q);
    assert {} + Ids(t, t.additional, None, Some(q)) == {4294967303};
  }

  /** An attached partition with the id 4294967295 is not found. */
  lemma LargeIdIsLost(t: Table)
    requires t == Lone(4294967295)
    ensures PlaceOf(t, None, At(5), true) == Place(-1, -1)
    ensures Reached(t, None, Some(Query(At(5), false, At(5), false)), true) == Some({4294967295})
  {
    var q := Query(At(5), false, At(5), false);
    LoneIds(4294967295, Resolve(None, true), q);
    assert {} + Ids(t, t.additional, None, Some(q)) == {4294967295};
  }

  /** Pruning keeps a part of what the user reaches. */
  lemma PrunedIsReached(t: Table, user: Option<User>, q: Query, isRead: bool)
    ensures var few, all := Reached(t, user, Some(q), isRead), Reached(t, user, None, isRead);
            few.None? == all.None? && (few.Some? ==> few.value <= all.value)
  {
  }

  /** What a user whose table is not switched writes, it reads from the same partition, and finds
      with every query that asks for the value. */
  lemma WrittenIsRead(t: Table, user: Option<User>, q: Query, v: Value)
    requires (user.Some? ==> !user.value.switched) && Asks(q, v) && PlaceOf(t, user, v, false).id != -1
    ensures var id := PlaceOf(t, user, v, false).id;
            && PlaceOf(t, user, v, true).id == id
            && Reached(t, user, Some(q), true).Some? && id in Reached(t, user, Some(q), true).value
  {
    var a := Resolve(user, false).value;
    MatchIsCollected(t, t.additional, None, q, v);
    MatchIsCollected(t, t.ranges, Some(a), q, v);
  }
}
