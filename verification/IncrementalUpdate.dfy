/** A log of updates kept in two generations.  New updates enter the background; once its oldest is
    over the time limit, the foreground is dropped and the background takes its place.  A reader
    asks for everything since an index, or is told to fetch the whole state. */
module IncrementalUpdate {

  /** An hour, in microseconds. */
  const GC_TIME: int := 3600000000

  /** `at` is the time the entry was put; no operation reads it. */
  datatype Entry<+T> = Entry(index: int, info: T, at: int)

  predicate Sorted<T>(es: seq<Entry<T>>) {
    forall i, j :: 0 <= i < j < |es| ==> es[i].index < es[j].index
  }

  /** std::map's m[e.index] = e.info, for a map as its entries in order. */
  function Insert<T>(es: seq<Entry<T>>, e: Entry<T>): seq<Entry<T>> {
    if es == [] || e.index < es[0].index then [e] + es
    else if e.index == es[0].index then [e] + es[1..]
    else [es[0]] + Insert(es[1..], e)
  }

  lemma {:induction false} InsertIsUpdate<T(!new)>(es: seq<Entry<T>>, e: Entry<T>)
    requires Sorted(es)
    ensures Sorted(Insert(es, e))
    ensures forall x :: x in Insert(es, e) <==> x == e || (x in es && x.index != e.index)
  {
    if es != [] && e.index > es[0].index {
      InsertIsUpdate(es[1..], e);
      var r := Insert(es[1..], e);
      forall x | x in r ensures es[0].index < x.index {
        assert x == e || x in es[1..];
      }
    }
  }

  /** e behind the entries; it takes the place of a last entry with its index. */
  function Appended<T>(es: seq<Entry<T>>, e: Entry<T>): seq<Entry<T>> {
    (if es != [] && es[|es| - 1].index == e.index then es[..|es| - 1] else es) + [e]
  }

  lemma AppendedTail<T>(es: seq<Entry<T>>, e: Entry<T>)
    requires |es| > 1
    ensures Appended(es, e) == [es[0]] + Appended(es[1..], e)
  {
  }

  /** An index beyond all others is appended, the greatest index is overwritten. */
  lemma {:induction false} InsertLast<T(!new)>(es: seq<Entry<T>>, e: Entry<T>)
    requires Sorted(es) && (es == [] || es[|es| - 1].index <= e.index)
    ensures Insert(es, e) == Appended(es, e)
  {
    if |es| <= 1 {
      hide Sorted;
      assert es == [] || es == [es[0]];
    } else {
      AppendedTail(es, e);
      hide Sorted, Appended;
      InsertLast(es[1..], e);
    }
  }

  /** std::map::upper_bound, as a position. */
  function UpperBound<T>(es: seq<Entry<T>>, x: int): (n: nat)
    ensures n <= |es|
  {
    if es == [] || es[0].index > x then 0 else 1 + UpperBound(es[1..], x)
  }

  lemma {:induction false} UpperBoundSplits<T>(es: seq<Entry<T>>, x: int)
    requires Sorted(es)
    ensures var n := UpperBound(es, x);
            && (forall i :: 0 <= i < n ==> es[i].index <= x)
            && (forall i :: n <= i < |es| ==> es[i].index > x)
  {
    if es != [] && es[0].index <= x {
      UpperBoundSplits(es[1..], x);
      assert forall i :: 0 < i < |es| ==> es[i] == es[1..][i - 1];
    }
  }

  lemma UpperBoundIs<T>(es: seq<Entry<T>>, x: int, n: nat)
    requires Sorted(es) && n <= |es|
    requires n > 0 ==> es[n - 1].index <= x
    requires n < |es| ==> es[n].index > x
    ensures UpperBound(es, x) == n
  {
    hide UpperBound;
    UpperBoundSplits(es, x);
  }

  // ----- The operations on the two generations

  datatype Store<+T> = Store(front: seq<Entry<T>>, back: seq<Entry<T>>, earliest: int) {
    function All(): seq<Entry<T>> { front + back }
  }

  function Put<T>(s: Store<T>, e: Entry<T>): Store<T> {
    if s.back == [] then Store(s.front, Insert(s.back, e), e.at)
    else if e.at - s.earliest > GC_TIME then Store(Insert(s.back, e), [], s.earliest)
    else Store(s.front, Insert(s.back, e), s.earliest)
  }

  function Cleared<T>(s: Store<T>): Store<T> {
    Store([], [], s.earliest)
  }

  /** The entries with an index above last and not above applied. */
  function Between<T>(es: seq<Entry<T>>, last: int, applied: int): seq<Entry<T>> {
    if es == [] then []
    else (if last < es[0].index <= applied then [es[0]] else []) + Between(es[1..], last, applied)
  }

  function LastIndex<T>(es: seq<Entry<T>>, last: int): int {
    if es == [] then last else es[|es| - 1].index
  }

  datatype Outcome<+T> = Outcome(full: bool, delivered: seq<Entry<T>>, last: int)

  /** What a reader is promised: the whole state if entries may be missing since its index, and
      otherwise exactly the stored entries in (last, applied]. */
  function Promise<T>(s: Store<T>, last: int, applied: int): Outcome<T> {
    var all := s.All();
    if all == [] then Outcome(last + 1 < applied, [], last)
    else if last + 1 < all[0].index then Outcome(true, [], last)
    else var d := Between(all, last, applied); Outcome(false, d, LastIndex(d, last))
  }

  function Slice<T>(es: seq<Entry<T>>, from: nat, to: nat): seq<Entry<T>>
    requires to <= |es|
  {
    if from <= to then es[from..to] else []
  }

  lemma SliceTail<T>(es: seq<Entry<T>>, from: nat, to: nat)
    requires es != [] && to < |es|
    ensures Slice(es, from + 1, to + 1) == Slice(es[1..], from, to)
    ensures Slice(es, 0, to + 1) == [es[0]] + Slice(es[1..], 0, to)
  {
    if from <= to {
      var a, b := es[from + 1..to + 1], es[1..][from..to];
      var tail := es[1..];
      forall i | 0 <= i < to - from ensures a[i] == b[i] {
        assert b[i] == tail[from + i] == es[from + i + 1];
      }
      assert |a| == |b| == to - from;
      assert a == b;
    }
  }

  /** What check_and_update_incremental answers: one generation after the other. */
  function Check<T>(s: Store<T>, last: int, applied: int): Outcome<T> {
    if s.front == [] && s.back == [] then Outcome(last + 1 < applied, [], last)
    else if last + 1 < (if s.front == [] then s.back else s.front)[0].index then Outcome(true, [], last)
    else
      var d := Between(s.front, last, applied);
      var more := Between(s.back, LastIndex(d, last), applied);
      Outcome(false, d + more, LastIndex(more, LastIndex(d, last)))
  }

  /** With ascending indices the answer is the promised one. */
  lemma CheckKeepsPromise<T>(s: Store<T>, last: int, applied: int)
    requires Sorted(s.All())
    ensures Check(s, last, applied) == Promise(s, last, applied)
  {
    TwoGenerations(s.front, s.back, last, applied);
  }

  lemma {:induction false} BetweenIsSlice<T>(es: seq<Entry<T>>, last: int, applied: int)
    requires Sorted(es)
    ensures Between(es, last, applied) == Slice(es, UpperBound(es, last), UpperBound(es, applied))
  {
    hide Sorted, Slice;
    if es == [] {
      NoSlice(es, 0);
    } else {
      var rest := es[1..];
      var from, to := UpperBound(rest, last), UpperBound(rest, applied);
      SliceTail(es, from, to);
      NothingBefore(es, last);
      NothingBefore(es, applied);
      BetweenIsSlice(rest, last, applied);
      NoSlice(es, UpperBound(es, last));
      NoSlice(rest, from);
    }
  }

  lemma NothingBefore<T>(es: seq<Entry<T>>, x: int)
    requires Sorted(es) && es != []
    ensures Sorted(es[1..]) && (es[0].index > x ==> UpperBound(es[1..], x) == 0)
  {
  }

  lemma NoSlice<T>(es: seq<Entry<T>>, from: nat)
    ensures Slice(es, from, 0) == []
  {
  }

  lemma {:induction false} BetweenOfSum<T>(a: seq<Entry<T>>, b: seq<Entry<T>>, last: int, applied: int)
    ensures Between(a + b, last, applied) == Between(a, last, applied) + Between(b, last, applied)
  {
    if a == [] {
      assert a + b == b;
    } else {
      assert (a + b)[1..] == a[1..] + b;
      BetweenOfSum(a[1..], b, last, applied);
    }
  }

  lemma {:induction false} BetweenIn<T>(es: seq<Entry<T>>, last: int, applied: int, e: Entry<T>)
    ensures e in Between(es, last, applied) <==> e in es && last < e.index <= applied
  {
    if es != [] {
      BetweenIn(es[1..], last, applied, e);
      assert es == [es[0]] + es[1..];
    }
  }

  /** Starting behind an older delivery makes no difference. */
  lemma {:induction false} BetweenFrom<T>(es: seq<Entry<T>>, last: int, mid: int, applied: int)
    requires last <= mid && forall i :: 0 <= i < |es| ==> es[i].index <= applied ==> es[i].index > mid
    ensures Between(es, mid, applied) == Between(es, last, applied)
  {
    if es != [] {
      BetweenFrom(es[1..], last, mid, applied);
    }
  }

  /** Delivering the foreground and then the background delivers what both hold. */
  lemma TwoGenerations<T>(front: seq<Entry<T>>, back: seq<Entry<T>>, last: int, applied: int)
    requires Sorted(front + back)
    ensures var d := Between(front, last, applied);
            Between(front + back, last, applied) == d + Between(back, LastIndex(d, last), applied)
  {
    var d := Between(front, last, applied);
    BetweenOfSum(front, back, last, applied);
    if d != [] {
      var e := d[|d| - 1];
      BetweenIn(front, last, applied, e);
      var k :| 0 <= k < |front| && front[k] == e;
      forall i | 0 <= i < |back| ensures back[i].index > e.index {
        assert (front + back)[k] == e && (front + back)[|front| + i] == back[i];
      }
      BetweenFrom(back, last, e.index, applied);
    }
  }

  // ----- The log

  class Log<T(!new)> {
    var front: seq<Entry<T>>
    var back: seq<Entry<T>>
    var earliest: int

    ghost function State(): Store<T>
      reads this
    {
      Store(front, back, earliest)
    }

    ghost predicate Valid()
      reads this
    {
      Sorted(front) && Sorted(back)
    }

    constructor ()
      ensures Valid() && State() == Store([], [], 0)
    {
      front, back, earliest := [], [], 0;
    }

    /** put_incremental_info */
    method PutIncrementalInfo(now: int, index: int, info: T)
      requires Valid()
      modifies this
      ensures Valid() && State() == Put(old(State()), Entry(index, info, now))
    {
      var cost := now - earliest;
      InsertIsUpdate(back, Entry(index, info, now));
      if |back| <= 0 {
        back := Insert(back, Entry(index, info, now));
        earliest := now;
        return;
      }
      back := Insert(back, Entry(index, info, now));
      if cost > GC_TIME {
        front := [];
        front, back := back, front;
      }
    }

    /** One loop of check_and_update_incremental. */
    method Deliver(es: seq<Entry<T>>, last0: int, applied: int) returns (delivered: seq<Entry<T>>, last: int)
      requires Sorted(es)
      ensures delivered == Between(es, last0, applied) && last == LastIndex(delivered, last0)
    {
      delivered, last := [], last0;
      var start := UpperBound(es, last);
      var iter := start;
      while iter < |es|
        invariant start <= iter <= |es| && delivered == es[start..iter] && last == LastIndex(delivered, last0)
        invariant iter > start ==> es[iter - 1].index <= applied
      {
        if es[iter].index > applied {
          break;
        }
        delivered := delivered + [es[iter]];
        last := es[iter].index;
        iter := iter + 1;
      }
      BetweenIsSlice(es, last0, applied);
      UpperBoundSplits(es, last0);
      UpperBoundSplits(es, applied);
      if iter > start {
        UpperBoundIs(es, applied, iter);
      }
    }

    /** check_and_update_incremental: `full` asks the reader to fetch the whole state. */
    method CheckAndUpdateIncremental(last0: int, applied: int)
      returns (full: bool, delivered: seq<Entry<T>>, last: int)
      requires Valid()
      ensures Outcome(full, delivered, last) == Check(State(), last0, applied)
      ensures Sorted(State().All()) ==> Outcome(full, delivered, last) == Promise(State(), last0, applied)
    {
      full, delivered, last := false, [], last0;
      if |front| == 0 && |back| == 0 {
        full := last0 + 1 < applied;
      } else if |front| == 0 && |back| > 0 {
        if last0 + 1 < back[0].index {
          full := true;
        } else {
          delivered, last := Deliver(back, last0, applied);
          assert [] + delivered == delivered;
        }
      } else if last0 + 1 < front[0].index {
        full := true;
      } else {
        delivered, last := Deliver(front, last0, applied);
        var more;
        more, last := Deliver(back, last, applied);
        delivered := delivered + more;
      }
      if Sorted(front + back) {
        CheckKeepsPromise(State(), last0, applied);
      }
    }

    method Clear()
      modifies this
      ensures Valid() && State() == Cleared(old(State()))
    {
      back := [];
      front := [];
    }
  }

  // ----- What is kept

  function PutAll<T>(s: Store<T>, es: seq<Entry<T>>): Store<T> {
    if es == [] then s else Put(PutAll(s, es[..|es| - 1]), es[|es| - 1])
  }

  /** Puts with ascending indices, in the order of time. */
  predicate InOrder<T>(es: seq<Entry<T>>) {
    Sorted(es) && forall i, j :: 0 <= i < j < |es| ==> es[i].at <= es[j].at
  }

  /** The store holds all but the first `cut` puts; no entry of the foreground is younger than the
      timer that decides when it is dropped. */
  ghost predicate Keeps<T>(s: Store<T>, es: seq<Entry<T>>, cut: nat) {
    && cut <= |es| && s.front + s.back == es[cut..]
    && (es != [] ==> s.front + s.back != [])
    && (s.back != [] ==> forall i :: 0 <= i < |s.front| ==> s.front[i].at <= s.earliest)
  }

  lemma StoredInOrder<T>(s: Store<T>, es: seq<Entry<T>>, e: Entry<T>, cut: nat)
    requires InOrder(es + [e]) && cut <= |es| && s.front + s.back == es[cut..]
    ensures Sorted(s.back) && (s.back != [] ==> s.back[|s.back| - 1].index < e.index)
    ensures forall i :: 0 <= i < |s.front| ==> s.front[i] == es[cut + i] && s.front[i].at <= e.at
  {
    var puts, f := es + [e], |s.front|;
    assert s.front == puts[cut..cut + f] && s.back == puts[cut + f..|es|];
    forall i, j | 0 <= i < j < |s.back| ensures s.back[i].index < s.back[j].index {
      assert puts[cut + f + i].index < puts[cut + f + j].index;
    }
    forall i | 0 <= i < f ensures s.front[i] == es[cut + i] && s.front[i].at <= e.at {
      assert puts[cut + i].at <= puts[|es|].at;
    }
    assert s.back != [] ==> puts[|es| - 1].index < puts[|es|].index;
  }

  lemma KeepsPut<T(!new)>(s: Store<T>, es: seq<Entry<T>>, e: Entry<T>, cut: nat) returns (next: nat)
    requires InOrder(es + [e]) && Keeps(s, es, cut)
    ensures Keeps(Put(s, e), es + [e], next) && next >= cut
    ensures forall i :: cut <= i < next ==> e.at - es[i].at > GC_TIME
  {
    hide InOrder, Sorted;
    StoredInOrder(s, es, e, cut);
    InsertLast(s.back, e);
    var puts := es + [e];
    assert puts[cut..] == es[cut..] + [e] == s.front + (s.back + [e]);
    if s.back != [] && e.at - s.earliest > GC_TIME {
      next := cut + |s.front|;
      assert puts[next..] == puts[cut..][|s.front|..] == s.back + [e];
      assert s.back + [e] + [] == s.back + [e];
      forall i | cut <= i < next ensures e.at - es[i].at > GC_TIME {
        assert es[i] == s.front[i - cut];
      }
    } else {
      next := cut;
    }
  }

  /** After any run of puts on an empty store, it holds a suffix of them; every put that is gone was
      made more than the time limit before some later put, and so before the last. */
  lemma {:induction false} DroppedAreOld<T(!new)>(s: Store<T>, es: seq<Entry<T>>) returns (cut: nat)
    requires InOrder(es) && s.front == [] && s.back == []
    ensures Keeps(PutAll(s, es), es, cut)
    ensures forall i :: 0 <= i < cut ==> es[|es| - 1].at - es[i].at > GC_TIME
  {
    if es == [] {
      cut := 0;
    } else {
      var front, e := es[..|es| - 1], es[|es| - 1];
      assert es == front + [e];
      assert InOrder(front);
      hide InOrder, Keeps, Put;
      var c := DroppedAreOld(s, front);
      cut := KeepsPut(PutAll(s, front), front, e, c);
    }
  }

  // ----- What is dropped

  /** A background that is still young: it starts at the timer, and spans no more than the limit. */
  ghost predicate Young<T>(es: seq<Entry<T>>, earliest: int) {
    es != [] ==> es[0].at == earliest && forall i :: 0 <= i < |es| ==> es[i].at - es[0].at <= GC_TIME
  }

  /** A generation that has ended: its last entry, and no other, is beyond the limit. */
  ghost predicate Ended<T>(es: seq<Entry<T>>) {
    es != [] ==>
      && es[|es| - 1].at - es[0].at > GC_TIME
      && forall i :: 0 <= i < |es| - 1 ==> es[i].at - es[0].at <= GC_TIME
  }

  /** No more than the last ended generation and the young one is held. */
  ghost predicate TwoAges<T>(s: Store<T>) {
    Ended(s.front) && Young(s.back, s.earliest)
  }

  lemma PutAges<T(!new)>(s: Store<T>, es: seq<Entry<T>>, e: Entry<T>, cut: nat)
    requires InOrder(es + [e]) && Keeps(s, es, cut) && TwoAges(s)
    ensures TwoAges(Put(s, e))
  {
    StoredInOrder(s, es, e, cut);
    hide InOrder, Sorted, Keeps;
    InsertLast(s.back, e);
  }

  /** After any run of puts on an empty store it holds at most two generations: as soon as the young one
      spans more than the limit it becomes the old one, and what was the old one is dropped. */
  lemma {:induction false} EveryRunDrops<T(!new)>(s: Store<T>, es: seq<Entry<T>>) returns (cut: nat)
    requires InOrder(es) && s.front == [] && s.back == []
    ensures Keeps(PutAll(s, es), es, cut) && TwoAges(PutAll(s, es))
  {
    if es == [] {
      cut := 0;
    } else {
      var front, e := es[..|es| - 1], es[|es| - 1];
      assert es == front + [e];
      assert InOrder(front);
      hide InOrder, Keeps, Put, TwoAges;
      var c := EveryRunDrops(s, front);
      PutAges(PutAll(s, front), front, e, c);
      cut := KeepsPut(PutAll(s, front), front, e, c);
    }
  }

  /** With puts no more than `gap` apart, nothing is kept much longer than twice the limit. */
  lemma KeptAreRecent<T>(s: Store<T>, gap: nat)
    requires TwoAges(s) && forall i :: 0 <= i < |s.All()| - 1 ==> s.All()[i + 1].at - s.All()[i].at <= gap
    ensures s.All() != [] ==> s.All()[|s.All()| - 1].at - s.All()[0].at <= 2 * GC_TIME + 2 * gap
  {
    var all, f := s.All(), |s.front|;
    if all != [] {
      assert f > 0 ==> all[0] == s.front[0] && all[f - 1] == s.front[f - 1];
      assert f > 1 ==> all[f - 2] == s.front[f - 2] && all[f - 1].at - all[f - 2].at <= gap;
      if s.back != [] {
        assert all[f] == s.back[0] && all[|all| - 1] == s.back[|s.back| - 1];
        assert f > 0 ==> all[f].at - all[f - 1].at <= gap;
      }
    }
  }
}
