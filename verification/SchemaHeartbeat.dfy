/** The meta server's heartbeat: raft entries change schemas and regions; each kind of change goes
    into a log of its own, and a reader follows both with a single index. */
module SchemaHeartbeat {
  import opened Arithmetic
  import opened IncrementalUpdate

  // ----- The raft history, one kind of change at a time

  /** The changes that raft entry i makes. */
  function At<T>(h: seq<seq<T>>, i: int): seq<T> {
    if 0 <= i < |h| then h[i] else []
  }

  /** All changes up to entry n, in order. */
  function Effect<T>(h: seq<seq<T>>, n: int): seq<T>
    decreases n
  {
    if n < 0 then [] else Effect(h, n - 1) + At(h, n)
  }

  predicate NothingIn<T>(h: seq<seq<T>>, from: int, last: int) {
    forall n :: from < n <= last ==> At(h, n) == []
  }

  lemma {:induction false} EffectSkips<T>(h: seq<seq<T>>, from: int, last: int)
    requires from <= last
    ensures |Effect(h, from)| <= |Effect(h, last)|
    ensures NothingIn(h, from, last) <==> Effect(h, from) == Effect(h, last)
    ensures !NothingIn(h, from, last) ==> |Effect(h, from)| < |Effect(h, last)|
    decreases last - from
  {
    if from < last {
      EffectSkips(h, from, last - 1);
      assert NothingIn(h, from, last) <==> NothingIn(h, from, last - 1) && At(h, last) == [];
    }
  }

  function Flatten<T>(es: seq<Entry<seq<T>>>): seq<T> {
    if es == [] then [] else es[0].info + Flatten(es[1..])
  }

  // ----- A log that is current

  predicate Has<T>(es: seq<Entry<T>>, n: int) {
    exists i :: 0 <= i < |es| && es[i].index == n
  }

  /** The stored changes are those of history, up to a placeholder for the next entry. */
  ghost predicate Matches<T>(es: seq<Entry<seq<T>>>, h: seq<seq<T>>, applied: int, put: bool) {
    forall i :: 0 <= i < |es| ==>
      es[i].index <= applied + 1 && es[i].info == if es[i].index <= applied || put then At(h, es[i].index) else []
  }

  /** Every change above `from` is stored. */
  ghost predicate Complete<T>(es: seq<Entry<seq<T>>>, h: seq<seq<T>>, from: int, applied: int) {
    forall n :: from < n <= applied && At(h, n) != [] ==> Has(es, n)
  }

  /** No change from the first stored index on is missing. */
  ghost predicate Current<T>(s: Store<seq<T>>, h: seq<seq<T>>, applied: int, put: bool) {
    && Sorted(s.All()) && Matches(s.All(), h, applied, put)
    && (s.All() != [] ==> Complete(s.All(), h, s.All()[0].index - 1, applied))
    && (put && s.All() != [] ==> s.All()[|s.All()| - 1].index == applied + 1)
    && (!put ==> forall i :: 0 <= i < |s.front| ==> s.front[i].index <= applied)
  }

  /** With nothing stored there has been no change. */
  ghost predicate Grounded<T>(s: Store<seq<T>>, h: seq<seq<T>>, applied: int, put: bool) {
    s.All() == [] ==> NothingIn(h, -1, applied) && !put
  }

  /** Entries up to the applied index hold the changes of history. */
  ghost predicate Faithful<T>(es: seq<Entry<seq<T>>>, h: seq<seq<T>>, applied: int) {
    forall i :: 0 <= i < |es| && es[i].index <= applied ==> es[i].info == At(h, es[i].index)
  }

  lemma {:induction false} Follow<T>(es: seq<Entry<seq<T>>>, h: seq<seq<T>>, last: int, applied: int)
    requires Sorted(es) && Complete(es, h, last, applied) && Faithful(es, h, applied)
    ensures var d := Between(es, last, applied); var l := LastIndex(d, last);
            && last <= l && (l == last || l <= applied) && NothingIn(h, l, applied)
            && Effect(h, last) + Flatten(d) == Effect(h, l)
    decreases |es|
  {
    if es == [] {
      assert Effect(h, last) + [] == Effect(h, last);
    } else if es[0].index <= last || es[0].index > applied {
      Tail(es, h, last, applied, last);
      hide Sorted, Complete, Faithful, Effect, NothingIn;
      Follow(es[1..], h, last, applied);
      assert Between(es, last, applied) == Between(es[1..], last, applied);
    } else {
      FollowFirst(es, h, last, applied);
    }
  }

  lemma {:induction false} FollowFirst<T>(es: seq<Entry<seq<T>>>, h: seq<seq<T>>, last: int, applied: int)
    requires es != [] && Sorted(es) && Complete(es, h, last, applied) && Faithful(es, h, applied)
    requires last < es[0].index <= applied
    ensures var d := Between(es, last, applied); var l := LastIndex(d, last);
            && last <= l <= applied && NothingIn(h, l, applied)
            && Effect(h, last) + Flatten(d) == Effect(h, l)
    decreases |es|, 0
  {
    hide Sorted, Complete, Faithful, Effect, NothingIn, Between;
    var e, rest := es[0], es[1..];
    Tail(es, h, last, applied, e.index);
    FirstChange(es, h, last, applied);
    Follow(rest, h, e.index, applied);
    var d := Between(rest, e.index, applied);
    assert ([e] + d)[1..] == d;
    assert Effect(h, last) + (e.info + Flatten(d)) == Effect(h, last) + e.info + Flatten(d);
  }

  /** The first entry that is due holds the first change behind the reader's index. */
  lemma FirstChange<T>(es: seq<Entry<seq<T>>>, h: seq<seq<T>>, last: int, applied: int)
    requires es != [] && Sorted(es) && Complete(es, h, last, applied) && Faithful(es, h, applied)
    requires last < es[0].index <= applied
    ensures Effect(h, es[0].index) == Effect(h, last) + es[0].info
    ensures Between(es, last, applied) == [es[0]] + Between(es[1..], es[0].index, applied)
  {
    var e := es[0];
    Tail(es, h, last, applied, e.index);
    BetweenFrom(es[1..], last, e.index, applied);
    EffectSkips(h, last, e.index - 1);
    assert e.info == At(h, e.index);
  }

  lemma Tail<T>(es: seq<Entry<seq<T>>>, h: seq<seq<T>>, last: int, applied: int, from: int)
    requires es != [] && Sorted(es) && Complete(es, h, last, applied) && Faithful(es, h, applied)
    requires (from == last && (es[0].index <= last || es[0].index > applied)) || from == es[0].index > last
    ensures Sorted(es[1..]) && Complete(es[1..], h, from, applied) && Faithful(es[1..], h, applied)
    ensures forall i :: 0 <= i < |es[1..]| ==> es[1..][i].index > es[0].index
    ensures forall n :: last < n < es[0].index && n <= applied ==> At(h, n) == []
  {
  }

  /** A reader that is told to go on incrementally receives exactly the changes between its old and
      its new index.  No change up to the applied index is left, unless the log was emptied and the
      reader is one index behind. */
  lemma ReadKeepsUp<T>(s: Store<seq<T>>, h: seq<seq<T>>, applied: int, put: bool, last: int)
    requires Current(s, h, applied, put) && last >= 0
    requires !Promise(s, last, applied).full
    ensures var o := Promise(s, last, applied);
            && last <= o.last && (o.last == last || o.last <= applied)
            && (NothingIn(h, o.last, applied) || (s.All() == [] && o.last + 1 == applied))
            && Effect(h, last) + Flatten(o.delivered) == Effect(h, o.last)
  {
    var all := s.All();
    if all == [] {
      assert Effect(h, last) + Flatten<T>([]) == Effect(h, last);
    } else {
      assert Complete(all, h, last, applied);
      Follow(all, h, last, applied);
    }
  }

  lemma HasAppended<T>(es: seq<Entry<T>>, e: Entry<T>, n: int)
    requires Has(es, n) && n < e.index
    ensures Has(Appended(es, e), n)
  {
    var i :| 0 <= i < |es| && es[i].index == n;
    assert Appended(es, e)[i].index == n;
  }

  lemma AppendComplete<T>(es: seq<Entry<seq<T>>>, h: seq<seq<T>>, from: int, applied: int, e: Entry<seq<T>>)
    requires Complete(es, h, from, applied) && e.index == applied + 1
    ensures Complete(Appended(es, e), h, from, applied)
  {
    forall n | from < n <= applied && At(h, n) != [] ensures Has(Appended(es, e), n) {
      HasAppended(es, e, n);
    }
  }

  lemma SortedBack<T>(a: seq<Entry<T>>, b: seq<Entry<T>>)
    requires Sorted(a + b)
    ensures Sorted(b)
  {
    assert forall i :: 0 <= i < |b| ==> b[i] == (a + b)[|a| + i];
  }

  lemma PutAppends<T(!new)>(s: Store<seq<T>>, e: Entry<seq<T>>)
    requires Sorted(s.All()) && forall i :: 0 <= i < |s.front| ==> s.front[i].index < e.index
    requires s.back != [] ==> s.back[|s.back| - 1].index <= e.index
    ensures Put(s, e).All() == Appended(if Put(s, e).back == [] then s.back else s.All(), e)
    ensures Put(s, e).back == [] ==> s.back != []
  {
    SortedBack(s.front, s.back);
    InsertLast(s.back, e);
    if s.back == [] {
      assert s.All() == s.front;
    } else {
      hide Sorted;
      assert Appended(s.back, e) + [] == Appended(s.back, e);
    }
  }

  /** Putting the changes of the next raft entry keeps the log current, whether the generations are
      swapped or not. */
  lemma PutKeepsCurrent<T(!new)>(s: Store<seq<T>>, h: seq<seq<T>>, applied: int, e: Entry<seq<T>>)
    requires Current(s, h, applied, false) && e.index == applied + 1 >= 0 && e.info == At(h, e.index)
    ensures Current(Put(s, e), h, applied, true) && Put(s, e).All() != []
  {
    var all, p := s.All(), Put(s, e);
    assert s.back != [] ==> s.back[|s.back| - 1] == all[|all| - 1];
    PutAppends(s, e);
    if p.back == [] {
      BackIsCurrent(s, h, applied);
      hide Sorted, Matches, Complete, Put, Appended;
      AppendIsCurrent(s.back, h, applied, e);
    } else {
      hide Sorted, Matches, Complete, Put, Appended;
      AppendIsCurrent(all, h, applied, e);
    }
  }

  ghost predicate Whole<T>(es: seq<Entry<seq<T>>>, h: seq<seq<T>>, applied: int) {
    es != [] ==> Complete(es, h, es[0].index - 1, applied)
  }

  lemma AppendIsCurrent<T>(es: seq<Entry<seq<T>>>, h: seq<seq<T>>, applied: int, e: Entry<seq<T>>)
    requires Sorted(es) && Matches(es, h, applied, false) && Whole(es, h, applied)
    requires e.index == applied + 1 && e.info == At(h, e.index)
    ensures var r := Appended(es, e);
            && r != [] && r[|r| - 1] == e && Sorted(r) && Matches(r, h, applied, true)
            && Complete(r, h, r[0].index - 1, applied)
  {
    if es != [] {
      assert es[0].index <= applied + 1;
      assert |es| > 1 ==> es[0].index < es[1].index;
      assert Appended(es, e)[0].index == es[0].index;
      AppendComplete(es, h, es[0].index - 1, applied, e);
    }
  }

  lemma BackIsCurrent<T>(s: Store<seq<T>>, h: seq<seq<T>>, applied: int)
    requires Current(s, h, applied, false) && s.back != []
    ensures Sorted(s.back) && Matches(s.back, h, applied, false) && Whole(s.back, h, applied)
  {
    var all, f := s.All(), |s.front|;
    SortedBack(s.front, s.back);
    assert s.back == all[f..];
    assert f > 0 ==> all[0].index < all[f].index;
  }

  /** Applying an entry whose changes have been put keeps the log current. */
  lemma ApplyKeepsCurrent<T>(s: Store<seq<T>>, h: seq<seq<T>>, applied: int, put: bool)
    requires Current(s, h, applied, put) && (At(h, applied + 1) != [] ==> put)
    ensures Current(s, h, applied + 1, false)
  {
    var all := s.All();
    assert forall i :: 0 <= i < |s.front| ==> s.front[i] == all[i];
    if put && all != [] {
      assert all[|all| - 1].index == applied + 1;
      assert Has(all, applied + 1);
    }
  }

  /** After a restart from a snapshot the log holds just a placeholder. */
  lemma RestartIsCurrent<T>(s: Store<seq<T>>, h: seq<seq<T>>, applied: int, now: int)
    ensures Current(Put(Cleared(s), Entry(applied + 1, [], now)), h, applied, false)
    ensures Put(Cleared(s), Entry(applied + 1, [], now)).All() != []
  {
  }

  // ----- A reader of one log

  /** A log, and a reader with the changes that have reached it. */
  datatype Follower<+T> = Follower(store: Store<seq<T>>, applied: int, put: bool, last: int, seen: seq<T>)

  datatype LogEvent = PutNext(now: int) | ApplyNext | ClearAll | Poll

  predicate CanFollow<T>(h: seq<seq<T>>, f: Follower<T>, ev: LogEvent) {
    match ev
    case PutNext(_) => !f.put
    case ApplyNext => At(h, f.applied + 1) != [] ==> f.put
    case _ => true
  }

  function FollowStep<T>(h: seq<seq<T>>, f: Follower<T>, ev: LogEvent): Follower<T> {
    match ev
    case PutNext(now) => f.(store := Put(f.store, Entry(f.applied + 1, At(h, f.applied + 1), now)), put := true)
    case ApplyNext => f.(applied := f.applied + 1, put := false)
    case ClearAll => f.(store := Cleared(f.store))
    case Poll =>
      var o := Check(f.store, f.last, f.applied);
      if o.full then f.(last := f.applied, seen := Effect(h, f.applied))
      else f.(last := o.last, seen := f.seen + Flatten(o.delivered))
  }

  ghost predicate Following<T>(h: seq<seq<T>>, f: Follower<T>) {
    Current(f.store, h, f.applied, f.put) && f.applied >= 0 && f.last >= 0 && f.seen == Effect(h, f.last)
  }

  lemma StepKeepsFollowing<T(!new)>(h: seq<seq<T>>, f: Follower<T>, ev: LogEvent)
    requires Following(h, f) && CanFollow(h, f, ev)
    ensures Following(h, FollowStep(h, f, ev))
  {
    hide Current, Check, Put, Effect;
    match ev
    case PutNext(now) =>
      PutKeepsCurrent(f.store, h, f.applied, Entry(f.applied + 1, At(h, f.applied + 1), now));
    case ApplyNext => ApplyKeepsCurrent(f.store, h, f.applied, f.put);
    case ClearAll => ClearedIsCurrent(f.store, h, f.applied, f.put);
    case Poll => CheckDelivers(f.store, h, f.applied, f.put, f.last);
  }

  lemma ClearedIsCurrent<T>(s: Store<seq<T>>, h: seq<seq<T>>, applied: int, put: bool)
    ensures Current(Cleared(s), h, applied, put)
  {
  }

  lemma CheckDelivers<T>(s: Store<seq<T>>, h: seq<seq<T>>, applied: int, put: bool, last: int)
    requires Current(s, h, applied, put) && last >= 0
    ensures var o := Check(s, last, applied);
            !o.full ==> last <= o.last && Effect(h, last) + Flatten(o.delivered) == Effect(h, o.last)
  {
    CheckKeepsPromise(s, last, applied);
    hide Current, Check, Promise;
    if !Promise(s, last, applied).full {
      ReadKeepsUp(s, h, applied, put, last);
    }
  }

  function FollowRun<T>(h: seq<seq<T>>, f: Follower<T>, evs: seq<LogEvent>): Follower<T> {
    if evs == [] then f else FollowStep(h, FollowRun(h, f, evs[..|evs| - 1]), evs[|evs| - 1])
  }

  predicate CanFollowRun<T>(h: seq<seq<T>>, f: Follower<T>, evs: seq<LogEvent>) {
    evs != [] ==>
      && CanFollowRun(h, f, evs[..|evs| - 1])
      && CanFollow(h, FollowRun(h, f, evs[..|evs| - 1]), evs[|evs| - 1])
  }

  /** Through any sequence of puts, swaps, clears and polls, a reader that has received the changes
      up to its index still has: the index never moves past a change it did not receive. */
  lemma {:induction false} EveryFollowerKeepsUp<T(!new)>(h: seq<seq<T>>, f: Follower<T>, evs: seq<LogEvent>)
    requires Following(h, f) && CanFollowRun(h, f, evs)
    ensures Following(h, FollowRun(h, f, evs))
  {
    if evs != [] {
      hide Following, FollowStep, CanFollow;
      var before := evs[..|evs| - 1];
      EveryFollowerKeepsUp(h, f, before);
      StepKeepsFollowing(h, FollowRun(h, f, before), evs[|evs| - 1]);
    }
  }

  // ----- The heartbeat

  /** The reader's index and the changes that have reached it. */
  datatype Reader<+S, +R> = Reader(last: int, schemas: seq<S>, regions: seq<R>)

  /** Both logs, the applied index, and whether the next raft entry has already been put. */
  datatype World<+S, +R> = World(
    schema: Store<seq<S>>, region: Store<seq<R>>,
    applied: int, schemaPut: bool, regionPut: bool,
    reader: Reader<S, R>)

  datatype Event =
    | PutSchema(now: int)
    | PutRegion(now: int)
    | Apply
    | Restart(snapshot: nat, now: int)
    | Beat(suppressed: bool)

  /** Changes are put before their entry counts as applied. */
  predicate Enabled<S, R>(hs: seq<seq<S>>, hr: seq<seq<R>>, w: World<S, R>, ev: Event) {
    match ev
    case PutSchema(_) => !w.schemaPut
    case PutRegion(_) => !w.regionPut
    case Apply => (At(hs, w.applied + 1) != [] ==> w.schemaPut) && (At(hr, w.applied + 1) != [] ==> w.regionPut)
    case Restart(_, _) => true
    case Beat(_) => true
  }

  /** process_baikal_heartbeat: a reader gets the schemas and the regions, each whole or since its
      index.  A suppressed heartbeat gives no whole regions. */
  function Answered<S, R>(hs: seq<seq<S>>, hr: seq<seq<R>>, w: World<S, R>, suppressed: bool): Reader<S, R> {
    var last, applied := w.reader.last, w.applied;
    if last == 0 then Reader(Max(last, applied), Effect(hs, applied), Effect(hr, applied))
    else
      var s, r := Check(w.schema, last, applied), Check(w.region, last, applied);
      var wholeRegions := r.full && !suppressed;
      var index :=
        if s.full || wholeRegions then applied
        else Max(s.last, if r.full then 0 else r.last);
      Reader(Max(last, index),
             if s.full then Effect(hs, applied) else w.reader.schemas + Flatten(s.delivered),
             if wholeRegions then Effect(hr, applied)
             else if r.full then w.reader.regions
             else w.reader.regions + Flatten(r.delivered))
  }

  function Step<S, R>(hs: seq<seq<S>>, hr: seq<seq<R>>, w: World<S, R>, ev: Event): World<S, R> {
    var next := w.applied + 1;
    match ev
    case PutSchema(now) => w.(schema := Put(w.schema, Entry(next, At(hs, next), now)), schemaPut := true)
    case PutRegion(now) => w.(region := Put(w.region, Entry(next, At(hr, next), now)), regionPut := true)
    case Apply => w.(applied := next, schemaPut := false, regionPut := false)
    case Restart(n, now) =>
      w.(schema := Put(Cleared(w.schema), Entry(n + 1, [], now)),
         region := Put(Cleared(w.region), Entry(n + 1, [], now)),
         applied := n, schemaPut := false, regionPut := false)
    case Beat(suppressed) => w.(reader := Answered(hs, hr, w, suppressed))
  }

  function Run<S, R>(hs: seq<seq<S>>, hr: seq<seq<R>>, w: World<S, R>, evs: seq<Event>): World<S, R> {
    if evs == [] then w else Step(hs, hr, Run(hs, hr, w, evs[..|evs| - 1]), evs[|evs| - 1])
  }

  predicate EnabledRun<S, R>(hs: seq<seq<S>>, hr: seq<seq<R>>, w: World<S, R>, evs: seq<Event>) {
    evs != [] ==>
      && EnabledRun(hs, hr, w, evs[..|evs| - 1])
      && Enabled(hs, hr, Run(hs, hr, w, evs[..|evs| - 1]), evs[|evs| - 1])
  }

  function Start<S, R>(): World<S, R> {
    World(Store([], [], 0), Store([], [], 0), 0, false, false, Reader(0, [], []))
  }

  ghost predicate Inv<S, R>(hs: seq<seq<S>>, hr: seq<seq<R>>, w: World<S, R>) {
    && Current(w.schema, hs, w.applied, w.schemaPut) && Current(w.region, hr, w.applied, w.regionPut)
    && Grounded(w.schema, hs, w.applied, w.schemaPut) && Grounded(w.region, hr, w.applied, w.regionPut)
    && w.applied >= 0 && w.reader.last >= 0
  }

  /** The reader has received the changes up to its index, each once and in order. */
  ghost predicate UpToDate<S, R>(hs: seq<seq<S>>, hr: seq<seq<R>>, r: Reader<S, R>) {
    r.schemas == Effect(hs, r.last) && r.regions == Effect(hr, r.last)
  }

  /** The reader is due all regions, but the heartbeat withholds them. */
  predicate Withholds<S, R>(w: World<S, R>, suppressed: bool) {
    suppressed && w.reader.last != 0 && Check(w.region, w.reader.last, w.applied).full
  }

  /** Where such a heartbeat leaves the reader: at the applied index if it is due all schemas too, else
      where the schema log takes it. */
  function Passed<S, R>(w: World<S, R>): int {
    var s := Check(w.schema, w.reader.last, w.applied);
    if s.full then w.applied else s.last
  }

  /** It does so without passing a change of a region. */
  ghost predicate Harmless<S, R>(hr: seq<seq<R>>, w: World<S, R>) {
    NothingIn(hr, w.reader.last, Passed(w))
  }

  lemma StepKeepsInv<S(!new), R(!new)>(hs: seq<seq<S>>, hr: seq<seq<R>>, w: World<S, R>, ev: Event)
    requires Inv(hs, hr, w) && Enabled(hs, hr, w, ev)
    ensures Inv(hs, hr, Step(hs, hr, w, ev))
  {
    hide Current, Grounded, Put, Check;
    var next := w.applied + 1;
    match ev
    case PutSchema(now) =>
      PutKeepsCurrent(w.schema, hs, w.applied, Entry(next, At(hs, next), now));
      StoredIsGrounded(Put(w.schema, Entry(next, At(hs, next), now)), hs, w.applied, true);
    case PutRegion(now) =>
      PutKeepsCurrent(w.region, hr, w.applied, Entry(next, At(hr, next), now));
      StoredIsGrounded(Put(w.region, Entry(next, At(hr, next), now)), hr, w.applied, true);
    case Apply =>
      ApplyKeepsCurrent(w.schema, hs, w.applied, w.schemaPut);
      ApplyKeepsGrounded(w.schema, hs, w.applied, w.schemaPut);
      ApplyKeepsCurrent(w.region, hr, w.applied, w.regionPut);
      ApplyKeepsGrounded(w.region, hr, w.applied, w.regionPut);
    case Restart(n, now) =>
      RestartIsCurrent(w.schema, hs, n, now);
      StoredIsGrounded(Put(Cleared(w.schema), Entry(n + 1, [], now)), hs, n, false);
      RestartIsCurrent(w.region, hr, n, now);
      StoredIsGrounded(Put(Cleared(w.region), Entry(n + 1, [], now)), hr, n, false);
    case Beat(_) =>
  }

  lemma StoredIsGrounded<T>(s: Store<seq<T>>, h: seq<seq<T>>, applied: int, put: bool)
    requires s.All() != []
    ensures Grounded(s, h, applied, put)
  {
  }

  lemma ApplyKeepsGrounded<T>(s: Store<seq<T>>, h: seq<seq<T>>, applied: int, put: bool)
    requires Grounded(s, h, applied, put) && (At(h, applied + 1) != [] ==> put)
    ensures Grounded(s, h, applied + 1, false)
  {
  }

  /** What an incremental or whole answer about one kind of change achieves. */
  lemma CheckKeepsUp<T>(s: Store<seq<T>>, h: seq<seq<T>>, applied: int, put: bool, last: int)
    requires Current(s, h, applied, put) && Grounded(s, h, applied, put) && last > 0
    ensures var o := Check(s, last, applied);
            if o.full then last < applied
            else && last <= o.last <= Max(last, applied) && NothingIn(h, o.last, Max(last, applied))
                 && Effect(h, last) + Flatten(o.delivered) == Effect(h, o.last)
  {
    CheckKeepsPromise(s, last, applied);
    hide Current, Promise, Check;
    if !Promise(s, last, applied).full {
      ReadKeepsUp(s, h, applied, put, last);
    }
  }

  lemma SameEffect<T>(h: seq<seq<T>>, from: int, mid: int, last: int)
    requires from <= mid <= last && NothingIn(h, from, last)
    ensures Effect(h, from) == Effect(h, mid) && NothingIn(h, mid, last)
  {
  }

  /** An answered reader is up to date, and nothing up to the applied index is left, exactly unless
      regions are withheld while the schema log takes its index past a change of them. */
  lemma BeatKeepsUpIff<S, R>(hs: seq<seq<S>>, hr: seq<seq<R>>, w: World<S, R>, suppressed: bool)
    requires Inv(hs, hr, w) && UpToDate(hs, hr, w.reader)
    ensures var r := Answered(hs, hr, w, suppressed);
            && w.reader.last <= r.last <= Max(w.reader.last, w.applied)
            && (UpToDate(hs, hr, r) <==>
                !Withholds(w, suppressed) || Harmless(hr, w))
            && (!Withholds(w, suppressed) ==> NothingIn(hs, r.last, w.applied) && NothingIn(hr, r.last, w.applied))
  {
    var last, applied := w.reader.last, w.applied;
    if last != 0 {
      hide Current, Check, Effect;
      CheckKeepsUp(w.schema, hs, applied, w.schemaPut, last);
      CheckKeepsUp(w.region, hr, applied, w.regionPut, last);
      var s, r := Check(w.schema, last, applied), Check(w.region, last, applied);
      var index := Answered(hs, hr, w, suppressed).last;
      if !s.full {
        SameEffect(hs, s.last, index, Max(last, applied));
      }
      if !r.full {
        SameEffect(hr, r.last, index, Max(last, applied));
      }
      EffectSkips(hr, last, index);
    }
  }

  /** No heartbeat of the run withholds regions whose changes it passes. */
  ghost predicate Lossless<S, R>(hs: seq<seq<S>>, hr: seq<seq<R>>, w: World<S, R>, evs: seq<Event>) {
    evs != [] ==>
      && Lossless(hs, hr, w, evs[..|evs| - 1])
      && var v, ev := Run(hs, hr, w, evs[..|evs| - 1]), evs[|evs| - 1];
         ev.Beat? && Withholds(v, ev.suppressed) ==> Harmless(hr, v)
  }

  /** In every run of puts, swaps, restarts and heartbeats the reader has received exactly the
      changes up to its index. */
  lemma {:induction false} EveryRunKeepsUp<S(!new), R(!new)>(hs: seq<seq<S>>, hr: seq<seq<R>>, evs: seq<Event>)
    requires At(hs, 0) == [] && At(hr, 0) == []
    requires EnabledRun(hs, hr, Start(), evs) && Lossless(hs, hr, Start(), evs)
    ensures var w := Run(hs, hr, Start(), evs); Inv(hs, hr, w) && UpToDate(hs, hr, w.reader)
  {
    if evs == [] {
      assert Effect(hs, -1) == [] && Effect(hr, -1) == [];
    } else {
      var before, ev := evs[..|evs| - 1], evs[|evs| - 1];
      EveryRunKeepsUp(hs, hr, before);
      var w := Run(hs, hr, Start(), before);
      StepKeepsInv(hs, hr, w, ev);
      if ev.Beat? {
        BeatKeepsUpIff(hs, hr, w, ev.suppressed);
      }
    }
  }

  /** A region change made while the reader was away: after a restart from a later snapshot, a
      suppressed heartbeat moves the reader past it. */
  lemma WithheldRegionsAreLost(hs: seq<seq<int>>, hr: seq<seq<int>>)
    requires hs == [] && hr == [[], [], [8]]
    ensures var w1 := Step(hs, hr, Start(), Apply);
            var w2 := Step(hs, hr, w1, Beat(false));
            var w3 := Step(hs, hr, w2, Restart(4, 0));
            && Enabled(hs, hr, Start(), Apply) && UpToDate(hs, hr, w3.reader)
            && !UpToDate(hs, hr, Answered(hs, hr, w3, true)) && UpToDate(hs, hr, Answered(hs, hr, w3, false))
  {
  }
}
