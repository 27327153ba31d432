/** Who may use a pooled connection: threads claim connections by compare-and-swap on their status,
    while others create, ping and delete them.  Every atomic access is a step of its own. */
module ConnectionOwnership {

  datatype Status = NotConnected | NotUsed | InUse | BeingChecked | Bad

  /** Where a thread stands. */
  datatype Pc =
    | Idle
    | Fetching(i: nat)                      // fetch_connection, holding the read lock
    | Using(c: nat)                         // a caller owns the connection
    | Opening(c: nat) | Opened(c: nat)      // new_special_connection: before and after connect
    | Claimed(c: nat) | Linking(c: nat)     // claimed; then holding the write lock
    | Linked(c: nat)                        // pushed, count not yet published
    | Filling(cs: seq<nat>)                 // add_connection, before the write lock
    | Appending(cs: seq<nat>)               // holding it, with these still to push
    | Pinging(cs: seq<nat>)                 // _ping, with this rest of its copy
    | Checking(c: nat, cs: seq<nat>)
    | Deleting(i: nat, left: int)           // delete_connection_not_used; below 0 there is no limit
    | Dropping(i: nat)                      // _detect_bad
    | Clearing                              // hang_check or _delete_all_connection

  /** status[c] is connection c's; `wiped` says that some connection was removed whatever its state, and
      `lost` lists those whose ping and reconnect failed and those their maker gave up. */
  datatype State =
    State(status: seq<Status>, vec: seq<nat>, count: nat, pcs: map<nat, Pc>, wiped: bool, lost: set<nat>)

  function PcOf(s: State, t: nat): Pc {
    if t in s.pcs then s.pcs[t] else Idle
  }

  predicate Writes(p: Pc) {
    p.Linking? || p.Linked? || p.Appending? || p.Deleting? || p.Dropping? || p.Clearing?
  }

  predicate Reads(p: Pc) { p.Fetching? }

  ghost predicate NoWriter(s: State) { forall t :: !Writes(PcOf(s, t)) }

  ghost predicate LockFree(s: State) { forall t :: !Writes(PcOf(s, t)) && !Reads(PcOf(s, t)) }

  // ----- The steps

  datatype Ping = Alive | Reconnected | Dead

  datatype Action =
    | StartFetch | FetchNext
    | Close(rolledBack: bool)
    | New | Connect(ok: bool) | Claim | LockToPush | Push | Publish
    | Fill | Abandon | LockToAppend | AppendNext
    | CopyForPing | PingNext | Pinged(outcome: Ping)
    | LockToDelete(limit: int) | DeleteNext
    | LockToDrop | DropNext
    | LockToClear | ClearNext

  ghost predicate Can(s: State, t: nat, a: Action) {
    var p := PcOf(s, t);
    match a
    case StartFetch => p.Idle? && NoWriter(s)
    case FetchNext => p.Fetching?
    case Close(_) => p.Using?
    case New => p.Idle?
    case Connect(_) => p.Opening?
    case Claim => p.Opened?
    case LockToPush => p.Claimed? && LockFree(s)
    case Push => p.Linking?
    case Publish => p.Linked?
    case Fill => p.Idle? || p.Filling?
    case Abandon => p.Filling?
    case LockToAppend => p.Filling? && LockFree(s)
    case AppendNext => p.Appending?
    case CopyForPing => p.Idle? && NoWriter(s)
    case PingNext => p.Pinging?
    case Pinged(_) => p.Checking?
    case LockToDelete(_) => p.Idle? && LockFree(s)
    case DeleteNext => p.Deleting?
    case LockToDrop => p.Idle? && LockFree(s)
    case DropNext => p.Dropping?
    case LockToClear => p.Idle? && LockFree(s)
    case ClearNext => p.Clearing?
  }

  function At(s: State, t: nat, p: Pc): State { s.(pcs := s.pcs[t := p]) }

  function Set(s: State, c: nat, x: Status): State {
    if c < |s.status| then s.(status := s.status[c := x]) else s
  }

  predicate Is(s: State, c: nat, x: Status) { c < |s.status| && s.status[c] == x }

  function Erase(s: State, i: nat): State
    requires i < |s.vec|
  {
    s.(vec := s.vec[..i] + s.vec[i + 1..])
  }

  /** The count is stored and the write lock released. */
  function Done(s: State, t: nat, p: Pc): State { At(s.(count := |s.vec|), t, p) }

  ghost function Step(s: State, t: nat, a: Action): State
    requires Can(s, t, a)
  {
    var p := PcOf(s, t);
    match a
    case StartFetch => At(s, t, Fetching(0))
    case FetchNext =>
      if p.i >= |s.vec| then At(s, t, Idle)
      else if Is(s, s.vec[p.i], NotUsed) then At(Set(s, s.vec[p.i], InUse), t, Using(s.vec[p.i]))
      else At(s, t, Fetching(p.i + 1))
    case Close(rolledBack) =>
      if !rolledBack then At(Set(s, p.c, Bad), t, Idle)
      else if Is(s, p.c, InUse) then At(Set(s, p.c, NotUsed), t, Idle)
      else At(s, t, Idle)
    case New => At(s.(status := s.status + [NotConnected]), t, Opening(|s.status|))
    case Connect(ok) => if ok then At(Set(s, p.c, NotUsed), t, Opened(p.c)) else At(s, t, Idle)
    case Claim => if Is(s, p.c, NotUsed) then At(Set(s, p.c, InUse), t, Claimed(p.c)) else At(s, t, Idle)
    case LockToPush => At(s, t, Linking(p.c))
    case Push => At(s.(vec := s.vec + [p.c]), t, Linked(p.c))
    case Publish => Done(s, t, Using(p.c))
    case Fill =>
      var cs := if p.Filling? then p.cs else [];
      At(s.(status := s.status + [NotUsed]), t, Filling(cs + [|s.status|]))
    case Abandon => At(s.(lost := s.lost + set c | c in p.cs), t, Idle)
    case LockToAppend => At(s, t, Appending(p.cs))
    case AppendNext =>
      if p.cs == [] then Done(s, t, Idle) else At(s.(vec := s.vec + [p.cs[0]]), t, Appending(p.cs[1..]))
    case CopyForPing => At(s, t, Pinging(s.vec))
    case PingNext =>
      if p.cs == [] then At(s, t, Idle)
      else if Is(s, p.cs[0], NotUsed) then At(Set(s, p.cs[0], BeingChecked), t, Checking(p.cs[0], p.cs[1..]))
      else At(s, t, Pinging(p.cs[1..]))
    case Pinged(outcome) =>
      match outcome {
        case Alive => At(if Is(s, p.c, BeingChecked) then Set(s, p.c, NotUsed) else s, t, Pinging(p.cs))
        case Reconnected => At(Set(s, p.c, NotUsed), t, Pinging(p.cs))
        case Dead => At(s.(lost := s.lost + {p.c}), t, Idle)
      }
    case LockToDelete(limit) => At(s, t, Deleting(0, limit))
    case DeleteNext =>
      if p.left == 0 || p.i >= |s.vec| then Done(s, t, Idle)
      else if Is(s, s.vec[p.i], NotUsed) then
        At(Erase(Set(s, s.vec[p.i], NotConnected), p.i), t, Deleting(p.i, p.left - 1))
      else At(s, t, Deleting(p.i + 1, p.left))
    case LockToDrop => At(s, t, Dropping(0))
    case DropNext =>
      if p.i >= |s.vec| then Done(s, t, Idle)
      else if Is(s, s.vec[p.i], Bad) then At(Erase(s, p.i), t, Dropping(p.i))
      else At(s, t, Dropping(p.i + 1))
    case LockToClear => At(s, t, Clearing)
    case ClearNext =>
      if s.vec == [] then Done(s, t, Idle) else At(s.(vec := s.vec[1..], wiped := true), t, Clearing)
  }

  // ----- What every run keeps

  /** The connections only this thread may touch. */
  function Owned(p: Pc): set<nat> {
    match p
    case Using(c) => {c}
    case Opening(c) => {c}
    case Opened(c) => {c}
    case Claimed(c) => {c}
    case Linking(c) => {c}
    case Linked(c) => {c}
    case Checking(c, _) => {c}
    case Filling(cs) => set c | c in cs
    case Appending(cs) => set c | c in cs
    case _ => {}
  }

  /** Those of them that no other thread can reach. */
  function Private(p: Pc): set<nat> {
    if p.Using? || p.Linked? || p.Checking? then {} else Owned(p)
  }

  function Copied(p: Pc): set<nat> {
    if p.Pinging? || p.Checking? then set c | c in p.cs else {}
  }

  /** The status an owned connection has. */
  predicate Fits(p: Pc, x: Status) {
    match p
    case Using(_) => x == InUse
    case Claimed(_) => x == InUse
    case Linking(_) => x == InUse
    case Linked(_) => x == InUse
    case Opening(_) => x == NotConnected
    case Opened(_) => x == NotUsed
    case Filling(_) => x == NotUsed
    case Appending(_) => x == NotUsed
    case Checking(_, _) => x == BeingChecked
    case _ => true
  }

  predicate Distinct(s: seq<nat>) { forall i, j :: 0 <= i < j < |s| ==> s[i] != s[j] }

  predicate Owns(s: State, t: nat, c: nat) { c in Owned(PcOf(s, t)) }

  predicate Hides(s: State, t: nat, c: nat) { c in Private(PcOf(s, t)) }

  predicate Copies(s: State, t: nat, c: nat) { c in Copied(PcOf(s, t)) }

  predicate Fitting(s: State, t: nat, c: nat) { c < |s.status| && Fits(PcOf(s, t), s.status[c]) }

  ghost predicate Locked(s: State) {
    forall t, u :: t != u && Writes(PcOf(s, t)) ==> !Writes(PcOf(s, u)) && !Reads(PcOf(s, u))
  }

  /** Owned connections have the status that fits, and no two threads own the same. */
  ghost predicate OwnedOnce(s: State) {
    && (forall t: nat, c: nat {:trigger Owns(s, t, c)} :: Owns(s, t, c) ==> Fitting(s, t, c))
    && (forall t: nat, u: nat, c: nat {:trigger Owns(s, t, c), Owns(s, u, c)} :: Owns(s, t, c) && Owns(s, u, c) ==> t == u)
  }

  /** Private connections are neither listed nor copied. */
  ghost predicate Apart(s: State) {
    && (forall t: nat, c: nat {:trigger Hides(s, t, c)} :: Hides(s, t, c) ==> c !in s.vec)
    && (forall t: nat, u: nat, c: nat {:trigger Hides(s, t, c), Copies(s, u, c)} :: Hides(s, t, c) ==> !Copies(s, u, c))
    && (forall t: nat, c: nat {:trigger Copies(s, t, c)} :: Copies(s, t, c) ==> c < |s.status|)
  }

  /** The vector holds each connection once and none that was deleted. */
  ghost predicate Listed(s: State) {
    && Distinct(s.vec)
    && (forall i :: 0 <= i < |s.vec| ==> s.vec[i] < |s.status| && s.status[s.vec[i]] != NotConnected)
  }

  /** Connections are appended once each. */
  ghost predicate Batched(s: State) {
    forall t :: PcOf(s, t).Filling? || PcOf(s, t).Appending? ==> Distinct(PcOf(s, t).cs)
  }

  ghost predicate Counted(s: State) { NoWriter(s) ==> s.count == |s.vec| }

  predicate Live(x: Status) { x == NotUsed || x == InUse || x == BeingChecked }

  /** Unless some were removed regardless, the connections in use or being checked are listed. */
  ghost predicate Kept(s: State) {
    !s.wiped ==>
      && (forall t: nat, c: nat {:trigger Owns(s, t, c)} :: Owns(s, t, c) && !Hides(s, t, c) ==> c in s.vec)
      && (forall t: nat, c: nat {:trigger Copies(s, t, c)} ::
            Copies(s, t, c) && c < |s.status| && Live(s.status[c]) ==> c in s.vec)
  }

  ghost predicate Inv(s: State) {
    Locked(s) && OwnedOnce(s) && Apart(s) && Listed(s) && Batched(s) && Counted(s) && Kept(s)
  }

  // ----- The footprint of a step

  /** The connection whose status the step stores. */
  ghost function Touched(s: State, t: nat, a: Action): set<nat>
    requires Can(s, t, a)
  {
    var p := PcOf(s, t);
    match a
    case FetchNext => if p.i < |s.vec| && Is(s, s.vec[p.i], NotUsed) then {s.vec[p.i]} else {}
    case PingNext => if p.cs != [] && Is(s, p.cs[0], NotUsed) then {p.cs[0]} else {}
    case DeleteNext => if p.left != 0 && p.i < |s.vec| && Is(s, s.vec[p.i], NotUsed) then {s.vec[p.i]} else {}
    case Close(_) => {p.c}
    case Connect(_) => {p.c}
    case Claim => {p.c}
    case Pinged(_) => {p.c}
    case _ => {}
  }

  lemma OtherPc(s: State, t: nat, a: Action, u: nat)
    requires Can(s, t, a) && u != t
    ensures PcOf(Step(s, t, a), u) == PcOf(s, u)
  {
  }

  lemma StatusAfter(s: State, t: nat, a: Action, c: nat)
    requires Can(s, t, a) && c < |s.status|
    ensures c < |Step(s, t, a).status| && (c !in Touched(s, t, a) ==> Step(s, t, a).status[c] == s.status[c])
  {
  }

  /** A free connection that is listed or copied is owned by no thread. */
  lemma FreeIsUnowned(s: State, t: nat, c: nat, u: nat)
    requires OwnedOnce(s) && Apart(s) && Is(s, c, NotUsed) && (c in s.vec || Copies(s, t, c))
    ensures !Owns(s, u, c)
  {
    assert Owns(s, u, c) ==> Hides(s, u, c);
  }

  /** No other thread owns what a step touches. */
  lemma TouchedIsUnowned(s: State, t: nat, a: Action, u: nat, c: nat)
    requires OwnedOnce(s) && Apart(s) && Can(s, t, a) && u != t && c in Touched(s, t, a)
    ensures !Owns(s, u, c)
  {
    var p := PcOf(s, t);
    if a.FetchNext? || a.DeleteNext? {
      assert s.vec[p.i] in s.vec;
      FreeIsUnowned(s, t, c, u);
    } else if a.PingNext? {
      assert p.cs[0] in p.cs && Copies(s, t, c);
      FreeIsUnowned(s, t, c, u);
    } else {
      assert Owns(s, t, c);
    }
  }

  /** What a thread owns after its step it owned before, or made or claimed just now. */
  lemma OwnedAfter(s: State, t: nat, a: Action, c: nat)
    requires Can(s, t, a) && Owns(Step(s, t, a), t, c)
    ensures Owns(s, t, c) || c in Touched(s, t, a) || c == |s.status|
  {
    hide NoWriter, LockFree;
  }

  /** And its status fits. */
  /** The steps by which connections are made. */
  predicate Makes(a: Action) {
    || a.New? || a.Connect? || a.Claim? || a.LockToPush? || a.Push? || a.Publish?
    || a.Fill? || a.LockToAppend? || a.AppendNext?
  }

  lemma FittingAfterMaking(s: State, t: nat, a: Action, c: nat)
    requires Makes(a) && Can(s, t, a) && Owns(Step(s, t, a), t, c) && (Owns(s, t, c) ==> Fitting(s, t, c))
    ensures Fitting(Step(s, t, a), t, c)
  {
    hide NoWriter, LockFree;
  }

  lemma FittingAfterUse(s: State, t: nat, a: Action, c: nat)
    requires !Makes(a) && Can(s, t, a) && Owns(Step(s, t, a), t, c) && (Owns(s, t, c) ==> Fitting(s, t, c))
    ensures Fitting(Step(s, t, a), t, c)
  {
    hide NoWriter, LockFree;
  }

  lemma FittingAfter(s: State, t: nat, a: Action, c: nat)
    requires Can(s, t, a) && Owns(Step(s, t, a), t, c) && (Owns(s, t, c) ==> Fitting(s, t, c))
    ensures Fitting(Step(s, t, a), t, c)
  {
    hide Can, Step, Owns, Fitting;
    if Makes(a) {
      FittingAfterMaking(s, t, a, c);
    } else {
      FittingAfterUse(s, t, a, c);
    }
  }

  lemma OthersKeepOwning(s: State, t: nat, a: Action, u: nat, c: nat)
    requires OwnedOnce(s) && Apart(s) && Can(s, t, a) && u != t && Owns(Step(s, t, a), u, c)
    ensures Owns(s, u, c) && Fitting(s, u, c) && Fitting(Step(s, t, a), u, c) && c !in Touched(s, t, a)
  {
    hide Step, Touched, Can;
    OtherPc(s, t, a, u);
    assert Owns(s, u, c);
    StatusAfter(s, t, a, c);
    if c in Touched(s, t, a) {
      TouchedIsUnowned(s, t, a, u, c);
    }
  }

  lemma StepKeepsOwners(s: State, t: nat, a: Action)
    requires OwnedOnce(s) && Apart(s) && Can(s, t, a)
    ensures OwnedOnce(Step(s, t, a))
  {
    hide Step, Touched, Can, Apart, Fitting, Owns;
    var r := Step(s, t, a);
    forall u: nat, c: nat | Owns(r, u, c) ensures Fitting(r, u, c) {
      if u == t {
        FittingAfter(s, t, a, c);
      } else {
        OthersKeepOwning(s, t, a, u, c);
      }
    }
    forall u: nat, v: nat, c: nat | Owns(r, u, c) && Owns(r, v, c) ensures u == v {
      if u != v {
        OwnersDiffer(s, t, a, if u == t then v else u, if u == t then u else v, c);
      }
    }
  }

  lemma OwnersDiffer(s: State, t: nat, a: Action, u: nat, v: nat, c: nat)
    requires OwnedOnce(s) && Apart(s) && Can(s, t, a) && u != v && u != t && Owns(Step(s, t, a), u, c)
    ensures !Owns(Step(s, t, a), v, c)
  {
    OthersKeepOwning(s, t, a, u, c);
    hide Step, Touched, Can, Apart, Owns;
    if Owns(Step(s, t, a), v, c) {
      if v == t {
        OwnedAfter(s, t, a, c);
      } else {
        OthersKeepOwning(s, t, a, v, c);
      }
    }
  }

  // ----- Reachability

  /** What becomes private is new, what becomes copied was listed. */
  lemma HiddenByStep(s: State, t: nat, a: Action, c: nat)
    requires Can(s, t, a) && Hides(Step(s, t, a), t, c)
    ensures Hides(s, t, c) || c == |s.status|
  {
    hide NoWriter, LockFree;
  }

  lemma CopiedByStep(s: State, t: nat, a: Action, c: nat)
    requires Can(s, t, a) && Copies(Step(s, t, a), t, c)
    ensures Copies(s, t, c) || c in s.vec
  {
    hide NoWriter, LockFree;
  }

  lemma ReachAfter(s: State, t: nat, a: Action, c: nat)
    requires Can(s, t, a)
    ensures var r := Step(s, t, a);
            && (Hides(r, t, c) ==> Hides(s, t, c) || c == |s.status|)
            && (Copies(r, t, c) ==> Copies(s, t, c) || c in s.vec)
  {
    hide Can, Step, Hides, Copies;
    var r := Step(s, t, a);
    if Hides(r, t, c) { HiddenByStep(s, t, a, c); }
    if Copies(r, t, c) { CopiedByStep(s, t, a, c); }
  }

  /** What becomes listed stops being private. */
  lemma VecAfter(s: State, t: nat, a: Action, c: nat)
    requires Can(s, t, a) && c in Step(s, t, a).vec && c !in s.vec && Batched(s)
    ensures Hides(s, t, c) && !Hides(Step(s, t, a), t, c)
  {
    var p := PcOf(s, t);
    if a.AppendNext? {
      assert Distinct(p.cs);
      assert c == p.cs[0];
      assert forall i :: 0 <= i < |p.cs[1..]| ==> p.cs[1..][i] == p.cs[i + 1];
    }
  }

  lemma HidesIsOwns(s: State, t: nat, c: nat)
    requires Hides(s, t, c)
    ensures Owns(s, t, c)
  {
  }

  lemma HiddenAfter(s: State, t: nat, a: Action, u: nat, c: nat)
    requires OwnedOnce(s) && Apart(s) && Listed(s) && Can(s, t, a) && Hides(Step(s, t, a), u, c)
    ensures Hides(s, u, c) || (u == t && c == |s.status|)
    ensures c !in s.vec && (forall v: nat :: !Copies(s, v, c)) && (u != t ==> !Hides(s, t, c))
  {
    if u == t {
      ReachAfter(s, t, a, c);
    } else {
      OtherPc(s, t, a, u);
    }
    hide Step, Can;
    if Hides(s, u, c) && Hides(s, t, c) {
      HidesIsOwns(s, u, c);
      HidesIsOwns(s, t, c);
      hide Owns, Hides;
      assert u == t;
    }
  }

  lemma StepKeepsApart(s: State, t: nat, a: Action)
    requires OwnedOnce(s) && Apart(s) && Listed(s) && Batched(s) && Can(s, t, a)
    ensures Apart(Step(s, t, a))
  {
    hide Step, Can, OwnedOnce, Listed, Batched, Owns, Hides, Copies;
    var r := Step(s, t, a);
    forall u: nat, c: nat | Hides(r, u, c) ensures c !in r.vec {
      HiddenAfter(s, t, a, u, c);
      if c in r.vec {
        VecAfter(s, t, a, c);
      }
    }
    forall u: nat, v: nat, c: nat | Hides(r, u, c) ensures !Copies(r, v, c) {
      HiddenAfter(s, t, a, u, c);
      CopiedAfter(s, t, a, v, c);
    }
    forall u: nat, c: nat | Copies(r, u, c) ensures c < |r.status| {
      CopiedAfter(s, t, a, u, c);
      assert c < |s.status| by {
        if c in s.vec {
          ListedBound(s, c);
        }
      }
      StatusAfter(s, t, a, c);
    }
  }

  lemma CopiedAfter(s: State, t: nat, a: Action, u: nat, c: nat)
    requires Can(s, t, a)
    ensures Copies(Step(s, t, a), u, c) ==> Copies(s, u, c) || c in s.vec
  {
    if u == t {
      ReachAfter(s, t, a, c);
    } else {
      OtherPc(s, t, a, u);
    }
  }

  lemma ListedBound(s: State, c: nat)
    requires Listed(s) && c in s.vec
    ensures c < |s.status|
  {
  }

  // ----- The locks, the vector and the count

  lemma LockAfter(s: State, t: nat, a: Action)
    requires Can(s, t, a)
    ensures var p, q := PcOf(s, t), PcOf(Step(s, t, a), t);
            && (Writes(q) ==> Writes(p) || LockFree(s))
            && (Reads(q) ==> Reads(p) || NoWriter(s))
  {
    hide NoWriter, LockFree;
  }

  lemma StepKeepsLocks(s: State, t: nat, a: Action)
    requires Locked(s) && Can(s, t, a)
    ensures Locked(Step(s, t, a))
  {
    hide Step, Can;
    var r := Step(s, t, a);
    LockAfter(s, t, a);
    forall u: nat, v: nat | u != v && Writes(PcOf(r, u)) ensures !Writes(PcOf(r, v)) && !Reads(PcOf(r, v)) {
      if u != t {
        OtherPc(s, t, a, u);
      }
      if v != t {
        OtherPc(s, t, a, v);
      }
    }
  }

  /** A step leaves vector and count alone, or changes the vector under the write lock, or stores the
      count and ends. */
  lemma CountAfter(s: State, t: nat, a: Action)
    requires Can(s, t, a)
    ensures var r := Step(s, t, a);
            || (r.vec == s.vec && r.count == s.count && (Writes(PcOf(s, t)) ==> Writes(PcOf(r, t))))
            || (Writes(PcOf(r, t)))
            || r.count == |r.vec|
  {
    hide NoWriter, LockFree;
  }

  lemma StepKeepsCount(s: State, t: nat, a: Action)
    requires Counted(s) && Can(s, t, a)
    ensures Counted(Step(s, t, a))
  {
    hide Step, Can;
    var r := Step(s, t, a);
    CountAfter(s, t, a);
    if NoWriter(r) && r.count != |r.vec| {
      forall u: nat ensures !Writes(PcOf(s, u)) {
        assert !Writes(PcOf(r, u));
        if u != t {
          OtherPc(s, t, a, u);
        }
      }
    }
  }

  lemma StepKeepsBatches(s: State, t: nat, a: Action)
    requires OwnedOnce(s) && Batched(s) && Can(s, t, a)
    ensures Batched(Step(s, t, a))
  {
    var r := Step(s, t, a);
    forall u: nat | PcOf(r, u).Filling? || PcOf(r, u).Appending? ensures Distinct(PcOf(r, u).cs) {
      if u == t {
        BatchAfter(s, t, a);
      } else {
        OtherPc(s, t, a, u);
      }
    }
  }

  lemma BatchAfter(s: State, t: nat, a: Action)
    requires OwnedOnce(s) && Batched(s) && Can(s, t, a)
    ensures var q := PcOf(Step(s, t, a), t); q.Filling? || q.Appending? ==> Distinct(q.cs)
  {
    hide NoWriter, LockFree;
    var p := PcOf(s, t);
    assert p.Filling? ==> Distinct(p.cs) && forall i :: 0 <= i < |p.cs| ==> Owns(s, t, p.cs[i]);
  }

  /** The vector gains a private connection at its end, or loses one entry, or stays. */
  lemma VectorAfter(s: State, t: nat, a: Action)
    requires Can(s, t, a)
    ensures var v, w := s.vec, Step(s, t, a).vec;
            || w == v
            || (w != [] && w[..|w| - 1] == v && Hides(s, t, w[|w| - 1]))
            || (exists i :: 0 <= i < |v| && w == v[..i] + v[i + 1..])
  {
    var p, v := PcOf(s, t), s.vec;
    if a.ClearNext? && v != [] {
      assert v[1..] == v[..0] + v[0 + 1..];
    } else if a.DeleteNext? || a.DropNext? {
      assert Step(s, t, a).vec == v || (p.i < |v| && Step(s, t, a).vec == v[..p.i] + v[p.i + 1..]);
    } else {
      VecKept(s, t, a);
    }
  }

  /** Of the other steps only pushing changes the vector. */
  lemma VecKept(s: State, t: nat, a: Action)
    requires Can(s, t, a) && !(a.DeleteNext? || a.DropNext? || (a.ClearNext? && s.vec != []))
    ensures var v, w := s.vec, Step(s, t, a).vec;
            w == v || (w != [] && w[..|w| - 1] == v && Hides(s, t, w[|w| - 1]))
  {
    hide NoWriter, LockFree;
  }

  lemma DistinctAfter(v: seq<nat>, w: seq<nat>, i: nat)
    requires Distinct(v) && i < |v| && w == v[..i] + v[i + 1..]
    ensures Distinct(w) && v[i] !in w && forall c :: c in w ==> c in v
  {
  }

  lemma StepKeepsDistinct(s: State, t: nat, a: Action)
    requires Listed(s) && Apart(s) && Can(s, t, a)
    ensures Distinct(Step(s, t, a).vec)
  {
    VectorAfter(s, t, a);
    hide Step, Can;
    var v, w := s.vec, Step(s, t, a).vec;
    if i :| 0 <= i < |v| && w == v[..i] + v[i + 1..] {
      DistinctAfter(v, w, i);
    } else if w != v {
      assert forall j :: 0 <= j < |v| ==> w[j] == v[j] && v[j] in v;
    }
  }

  /** Only a deleted connection becomes unconnected, and it leaves the vector. */
  lemma ConnectedAfter(s: State, t: nat, a: Action, c: nat)
    requires OwnedOnce(s) && Apart(s) && Listed(s) && Can(s, t, a) && c in s.vec && c in Step(s, t, a).vec
    ensures c < |Step(s, t, a).status| && Step(s, t, a).status[c] != NotConnected
  {
    var p := PcOf(s, t);
    ListedBound(s, c);
    StatusAfter(s, t, a, c);
    assert a.Connect? ==> Hides(s, t, p.c);
    if a.DeleteNext? && c in Touched(s, t, a) {
      DistinctAfter(s.vec, Step(s, t, a).vec, p.i);
    }
  }

  lemma StepKeepsListed(s: State, t: nat, a: Action)
    requires OwnedOnce(s) && Apart(s) && Listed(s) && Batched(s) && Can(s, t, a)
    ensures Listed(Step(s, t, a))
  {
    StepKeepsDistinct(s, t, a);
    hide Step, Can, Touched, Distinct, Apart, Batched;
    var r := Step(s, t, a);
    forall i | 0 <= i < |r.vec| ensures r.vec[i] < |r.status| && r.status[r.vec[i]] != NotConnected {
      var c := r.vec[i];
      assert c in r.vec;
      if c in s.vec {
        ConnectedAfter(s, t, a, c);
      } else {
        AddedIsConnected(s, t, a, c);
      }
    }
  }

  lemma AddedIsConnected(s: State, t: nat, a: Action, c: nat)
    requires OwnedOnce(s) && Batched(s) && Can(s, t, a) && c in Step(s, t, a).vec && c !in s.vec
    ensures c < |Step(s, t, a).status| && Step(s, t, a).status[c] != NotConnected
  {
    VecAfter(s, t, a, c);
    HidesIsOwns(s, t, c);
    assert Fitting(s, t, c);
    hide NoWriter, LockFree;
  }

  // ----- What is in use stays listed

  lemma WipedAfter(s: State, t: nat, a: Action)
    requires Can(s, t, a)
    ensures s.wiped ==> Step(s, t, a).wiped
  {
  }

  lemma InErased(v: seq<nat>, i: nat, c: nat)
    requires i < |v| && c in v && c != v[i]
    ensures c in v[..i] + v[i + 1..]
  {
  }

  /** Deletion takes free connections and the removal of bad ones takes bad ones. */
  lemma StillListed(s: State, t: nat, a: Action, c: nat)
    requires Can(s, t, a) && c in s.vec && !Step(s, t, a).wiped
    requires c < |s.status| && Live(s.status[c]) && c !in Touched(s, t, a)
    ensures c in Step(s, t, a).vec
  {
    hide NoWriter, LockFree;
    var p := PcOf(s, t);
    if a.DeleteNext? && p.left != 0 && p.i < |s.vec| && Is(s, s.vec[p.i], NotUsed) {
      InErased(s.vec, p.i, c);
    } else if a.DropNext? && p.i < |s.vec| && Is(s, s.vec[p.i], Bad) {
      InErased(s.vec, p.i, c);
    }
  }

  lemma OwnedIsLive(s: State, u: nat, c: nat)
    requires Fitting(s, u, c) && Owns(s, u, c) && !Hides(s, u, c)
    ensures Live(s.status[c])
  {
  }

  /** A thread comes to own listed connections only. */
  lemma OwnedIsListed(s: State, t: nat, a: Action, c: nat)
    requires Kept(s) && Apart(s) && OwnedOnce(s) && Can(s, t, a) && !Step(s, t, a).wiped
    requires Owns(Step(s, t, a), t, c) && !Hides(Step(s, t, a), t, c)
    ensures c in Step(s, t, a).vec
  {
    WipedAfter(s, t, a);
    hide NoWriter, LockFree;
    var p := PcOf(s, t);
    assert a.PingNext? && p.cs != [] ==> p.cs[0] in p.cs && Copies(s, t, p.cs[0]);
    assert a.Publish? ==> Owns(s, t, p.c) && !Hides(s, t, p.c);
  }

  /** A touched connection that is copied and ends up live was listed and still is. */
  lemma TouchedIsListed(s: State, t: nat, a: Action, u: nat, c: nat)
    requires Kept(s) && Apart(s) && OwnedOnce(s) && Can(s, t, a) && !Step(s, t, a).wiped
    requires c in Touched(s, t, a) && Copies(s, u, c) && c < |s.status| && Live(Step(s, t, a).status[c])
    ensures c in Step(s, t, a).vec
  {
    WipedAfter(s, t, a);
    hide NoWriter, LockFree;
    var p := PcOf(s, t);
    assert a.PingNext? ==> p.cs[0] in p.cs && Copies(s, t, p.cs[0]);
    assert a.Close? || a.Pinged? ==> Owns(s, t, p.c) && !Hides(s, t, p.c);
    assert a.Connect? || a.Claim? ==> Hides(s, t, p.c);
  }

  lemma CopyListsAll(s: State, t: nat, a: Action, u: nat, c: nat)
    requires Can(s, t, a) && Copies(Step(s, t, a), u, c) && !Copies(s, u, c)
    ensures c in s.vec && Step(s, t, a).vec == s.vec && Touched(s, t, a) == {}
  {
    if u != t {
      OtherPc(s, t, a, u);
    }
    hide NoWriter, LockFree;
  }

  lemma StepKeepsListing(s: State, t: nat, a: Action)
    requires Inv(s) && Can(s, t, a)
    ensures Kept(Step(s, t, a))
  {
    hide Step, Can, Touched, Owns, Hides, Copies, Locked, Listed, Batched, Counted, Apart;
    var r := Step(s, t, a);
    if !r.wiped {
      WipedAfter(s, t, a);
      forall u: nat, c: nat | Owns(r, u, c) && !Hides(r, u, c) ensures c in r.vec {
        if u == t {
          OwnedIsListed(s, t, a, c);
        } else {
          OtherStaysListed(s, t, a, u, c);
        }
      }
      forall u: nat, c: nat | Copies(r, u, c) && c < |r.status| && Live(r.status[c]) ensures c in r.vec {
        if !Copies(s, u, c) {
          CopyListsAll(s, t, a, u, c);
        } else {
          CopiedBound(s, u, c);
          StatusAfter(s, t, a, c);
          if c in Touched(s, t, a) {
            TouchedIsListed(s, t, a, u, c);
          } else {
            StillListed(s, t, a, c);
          }
        }
      }
    }
  }

  lemma CopiedBound(s: State, u: nat, c: nat)
    requires Apart(s) && Copies(s, u, c)
    ensures c < |s.status|
  {
  }

  lemma OtherStaysListed(s: State, t: nat, a: Action, u: nat, c: nat)
    requires Inv(s) && Can(s, t, a) && u != t && !Step(s, t, a).wiped
    requires Owns(Step(s, t, a), u, c) && !Hides(Step(s, t, a), u, c)
    ensures c in Step(s, t, a).vec
  {
    OthersKeepOwning(s, t, a, u, c);
    OtherPc(s, t, a, u);
    WipedAfter(s, t, a);
    assert !Hides(s, u, c);
    OwnedIsLive(s, u, c);
    hide Step, Can, Touched;
    StillListed(s, t, a, c);
  }

  // ----- Every run

  lemma StepKeepsInv(s: State, t: nat, a: Action)
    requires Inv(s) && Can(s, t, a)
    ensures Inv(Step(s, t, a))
  {
    StepKeepsLocks(s, t, a);
    StepKeepsOwners(s, t, a);
    StepKeepsApart(s, t, a);
    StepKeepsListed(s, t, a);
    StepKeepsBatches(s, t, a);
    StepKeepsCount(s, t, a);
    StepKeepsListing(s, t, a);
  }

  function Start(): State { State([], [], 0, map[], false, {}) }

  /** The states a schedule of steps leads to. */
  ghost predicate Reaches(s: State, schedule: seq<(nat, Action)>, r: State)
    decreases |schedule|
  {
    if schedule == [] then r == s
    else Can(s, schedule[0].0, schedule[0].1)
         && Reaches(Step(s, schedule[0].0, schedule[0].1), schedule[1..], r)
  }

  lemma {:induction false} RunKeepsInv(s: State, schedule: seq<(nat, Action)>, r: State)
    requires Inv(s) && Reaches(s, schedule, r)
    ensures Inv(r)
    decreases |schedule|
  {
    if schedule != [] {
      var (t, a) := schedule[0];
      hide Inv, Step, Can;
      StepKeepsInv(s, t, a);
      RunKeepsInv(Step(s, t, a), schedule[1..], r);
    }
  }

  /** In every reachable state no connection has two owners, the published count is the size of the
      vector whenever the write lock is free, and connections in use or being checked are listed
      unless connections were removed regardless of their state. */
  lemma EveryRunIsSafe(schedule: seq<(nat, Action)>, s: State)
    requires Reaches(Start(), schedule, s)
    ensures forall t: nat, u: nat, c: nat :: Owns(s, t, c) && Owns(s, u, c) ==> t == u
    ensures (forall t: nat :: !Writes(PcOf(s, t))) ==> s.count == |s.vec|
    ensures forall t: nat :: !s.wiped && (PcOf(s, t).Using? || PcOf(s, t).Checking?) ==> PcOf(s, t).c in s.vec
  {
    RunKeepsInv(Start(), schedule, s);
    forall t: nat | !s.wiped && (PcOf(s, t).Using? || PcOf(s, t).Checking?) ensures PcOf(s, t).c in s.vec {
      assert Owns(s, t, PcOf(s, t).c) && !Hides(s, t, PcOf(s, t).c);
    }
  }

  // ----- No connection leaks

  ghost predicate InHands(s: State, c: nat) { exists t: nat :: Owns(s, t, c) }

  /** What is in use or being checked has a thread that uses or checks it, unless its ping and reconnect
      failed; what is free can be fetched, or is with its maker. */
  ghost predicate Accounted(s: State, c: nat) {
    && (Is(s, c, InUse) ==> InHands(s, c))
    && (Is(s, c, BeingChecked) ==> InHands(s, c) || c in s.lost)
    && (Is(s, c, NotUsed) ==> InHands(s, c) || c in s.vec || c in s.lost || s.wiped)
  }

  /** What a thread lets go of it gives back, or it is dead, or given up. */
  lemma OwnStepAccounts(s: State, t: nat, a: Action, c: nat)
    requires Inv(s) && Can(s, t, a) && Owns(s, t, c)
    ensures Accounted(Step(s, t, a), c)
  {
    var p, r := PcOf(s, t), Step(s, t, a);
    assert Fitting(s, t, c);
    assert !s.wiped && !Hides(s, t, c) ==> c in s.vec;
    hide NoWriter, LockFree, Locked, Apart, Listed, Batched, Counted, Kept, OwnedOnce;
    if a.AppendNext? && p.cs != [] {
      assert c == p.cs[0] || c in p.cs[1..];
      assert p.cs[0] in s.vec + [p.cs[0]];
    } else if a.Fill? {
      assert p.Filling? ==> c in p.cs + [|s.status|];
    }
    assert Owns(r, t, c) ==> InHands(r, c);
  }

  /** What else it touches it then owns, or has deleted; what it makes it owns. */
  lemma TouchedIsOwned(s: State, t: nat, a: Action, c: nat)
    requires Can(s, t, a) && !Owns(s, t, c) && c < |Step(s, t, a).status|
    requires c in Touched(s, t, a) || c >= |s.status|
    ensures Owns(Step(s, t, a), t, c) || Is(Step(s, t, a), c, NotConnected)
  {
    hide NoWriter, LockFree;
  }

  lemma LostStaysLost(s: State, t: nat, a: Action)
    requires Can(s, t, a)
    ensures s.lost <= Step(s, t, a).lost
  {
    hide NoWriter, LockFree;
  }

  lemma OtherStepAccounts(s: State, t: nat, a: Action, c: nat)
    requires Can(s, t, a) && !Owns(s, t, c) && Accounted(s, c)
    ensures Accounted(Step(s, t, a), c)
  {
    hide Can, Step, Touched, Owns;
    var r := Step(s, t, a);
    if c < |r.status| {
      if c in Touched(s, t, a) || c >= |s.status| {
        TouchedIsOwned(s, t, a, c);
      } else {
        StatusAfter(s, t, a, c);
        LostStaysLost(s, t, a);
        WipedAfter(s, t, a);
        if InHands(s, c) {
          var u: nat :| Owns(s, u, c);
          OthersOwn(s, t, a, u, c);
        } else if Is(s, c, NotUsed) && c in s.vec && !r.wiped {
          StillListed(s, t, a, c);
        }
      }
    }
  }

  lemma OthersOwn(s: State, t: nat, a: Action, u: nat, c: nat)
    requires Can(s, t, a) && Owns(s, u, c) && !Owns(s, t, c)
    ensures Owns(Step(s, t, a), u, c)
  {
    hide Can, Step;
    OtherPc(s, t, a, u);
  }

  lemma StepAccounts(s: State, t: nat, a: Action, c: nat)
    requires Inv(s) && Can(s, t, a) && Accounted(s, c)
    ensures Accounted(Step(s, t, a), c)
  {
    hide Inv, Can, Step, Accounted;
    if Owns(s, t, c) {
      OwnStepAccounts(s, t, a, c);
    } else {
      OtherStepAccounts(s, t, a, c);
    }
  }

  lemma {:induction false} RunAccounts(s: State, schedule: seq<(nat, Action)>, r: State, c: nat)
    requires Inv(s) && Accounted(s, c) && Reaches(s, schedule, r)
    ensures Accounted(r, c)
    decreases |schedule|
  {
    if schedule != [] {
      var (t, a) := schedule[0];
      hide Inv, Step, Can, Accounted;
      StepKeepsInv(s, t, a);
      StepAccounts(s, t, a, c);
      RunAccounts(Step(s, t, a), schedule[1..], r, c);
    }
  }

  /** In every reachable state every connection is accounted for. */
  lemma EveryRunLeaksNothing(schedule: seq<(nat, Action)>, s: State, c: nat)
    requires Reaches(Start(), schedule, s)
    ensures Accounted(s, c)
    ensures Is(s, c, BeingChecked) && c !in s.lost ==> exists t: nat :: PcOf(s, t).Checking? && PcOf(s, t).c == c
  {
    RunAccounts(Start(), schedule, s, c);
    RunKeepsInv(Start(), schedule, s);
    if Is(s, c, BeingChecked) && c !in s.lost {
      var t: nat :| Owns(s, t, c);
      assert Fitting(s, t, c);
    }
  }

  // ----- Deleted connections

  /** Deleted, and in nobody's hands. */
  ghost predicate Gone(s: State, c: nat) {
    Is(s, c, NotConnected) && forall t: nat :: !Hides(s, t, c)
  }

  /** Deletion removes a connection that nobody owned. */
  lemma DeletionTakesUnused(s: State, t: nat)
    requires Inv(s) && Can(s, t, DeleteNext)
    requires var p := PcOf(s, t); p.left != 0 && p.i < |s.vec| && Is(s, s.vec[p.i], NotUsed)
    ensures var c := s.vec[PcOf(s, t).i];
            && (forall u: nat :: !Owns(s, u, c)) && Gone(Step(s, t, DeleteNext), c)
            && c !in Step(s, t, DeleteNext).vec
  {
    var p, r := PcOf(s, t), Step(s, t, DeleteNext);
    var c := s.vec[p.i];
    assert c in s.vec;
    forall u: nat ensures !Owns(s, u, c) && !Hides(r, u, c) {
      FreeIsUnowned(s, t, c, u);
      if u != t {
        OtherPc(s, t, DeleteNext, u);
      }
    }
    DistinctAfter(s.vec, r.vec, p.i);
  }

  lemma StepKeepsGone(s: State, t: nat, a: Action, c: nat)
    requires Inv(s) && Can(s, t, a) && Gone(s, c)
    ensures Gone(Step(s, t, a), c)
  {
    var r := Step(s, t, a);
    forall u: nat ensures !Hides(r, u, c) {
      assert !Hides(s, u, c);
      if u == t {
        ReachAfter(s, t, a, c);
      } else {
        OtherPc(s, t, a, u);
      }
    }
    StatusAfter(s, t, a, c);
    GoneIsUntouched(s, t, a, c);
  }

  lemma GoneIsUntouched(s: State, t: nat, a: Action, c: nat)
    requires Inv(s) && Can(s, t, a) && Gone(s, c)
    ensures c !in Touched(s, t, a)
  {
    hide NoWriter, LockFree;
    GoneIsUnowned(s, t, c);
  }

  lemma GoneIsUnowned(s: State, t: nat, c: nat)
    requires OwnedOnce(s) && Gone(s, c)
    ensures !Owns(s, t, c)
  {
    assert Owns(s, t, c) && Fitting(s, t, c) ==> Hides(s, t, c);
  }

  /** A deleted connection is never used, checked or listed again. */
  lemma {:induction false} GoneForGood(s: State, schedule: seq<(nat, Action)>, r: State, c: nat)
    requires Inv(s) && Gone(s, c) && Reaches(s, schedule, r)
    ensures Gone(r, c) && c !in r.vec && forall t: nat :: !Owns(r, t, c)
    decreases |schedule|
  {
    if schedule == [] {
      forall t: nat ensures !Owns(r, t, c) {
        GoneIsUnowned(s, t, c);
      }
    } else {
      var (t, a) := schedule[0];
      hide Inv, Gone, Step, Can;
      StepKeepsInv(s, t, a);
      StepKeepsGone(s, t, a, c);
      GoneForGood(Step(s, t, a), schedule[1..], r, c);
    }
  }

  // ----- What a thread achieves that no other disturbs

  /** The same step of one thread, n times. */
  function Again(t: nat, a: Action, n: nat): seq<(nat, Action)> {
    if n == 0 then [] else [(t, a)] + Again(t, a, n - 1)
  }

  lemma OneStepOn(s: State, t: nat, a: Action, n: nat, r: State)
    requires Can(s, t, a) && Reaches(Step(s, t, a), Again(t, a, n), r)
    ensures Reaches(s, Again(t, a, n + 1), r)
  {
    hide Can, Step;
    assert Again(t, a, n + 1)[1..] == Again(t, a, n);
  }

  lemma Overtaken(s: State, t: nat, p: Pc, q: Pc)
    ensures At(At(s, t, p), t, q) == At(s, t, q) && PcOf(At(s, t, p), t) == p
  {
  }

  /** Fetching takes the first free connection of the vector. */
  lemma {:induction false} FetchTakesFirst(s: State, t: nat, j: nat, i: nat)
    requires PcOf(s, t) == Fetching(j) && j <= i < |s.vec| && Is(s, s.vec[i], NotUsed)
    requires forall k :: j <= k < i ==> !Is(s, s.vec[k], NotUsed)
    ensures Reaches(s, Again(t, FetchNext, i - j + 1), At(Set(s, s.vec[i], InUse), t, Using(s.vec[i])))
    decreases i - j
  {
    var c := s.vec[i];
    var r := At(Set(s, c, InUse), t, Using(c));
    if j == i {
      assert Step(s, t, FetchNext) == r;
      OneStepOn(s, t, FetchNext, 0, r);
    } else {
      var next := At(s, t, Fetching(j + 1));
      assert Step(s, t, FetchNext) == next;
      FetchTakesFirst(next, t, j + 1, i);
      Overtaken(Set(s, c, InUse), t, Fetching(j + 1), Using(c));
      assert At(Set(next, c, InUse), t, Using(c)) == r;
      OneStepOn(s, t, FetchNext, i - j, r);
    }
  }

  /** And gives up when there is none. */
  lemma {:induction false} FetchGivesUp(s: State, t: nat, j: nat)
    requires PcOf(s, t) == Fetching(j) && j <= |s.vec|
    requires forall k :: j <= k < |s.vec| ==> !Is(s, s.vec[k], NotUsed)
    ensures Reaches(s, Again(t, FetchNext, |s.vec| - j + 1), At(s, t, Idle))
    decreases |s.vec| - j
  {
    if j == |s.vec| {
      OneStepOn(s, t, FetchNext, 0, At(s, t, Idle));
    } else {
      var next := At(s, t, Fetching(j + 1));
      assert Step(s, t, FetchNext) == next;
      FetchGivesUp(next, t, j + 1);
      Overtaken(s, t, Fetching(j + 1), Idle);
      OneStepOn(s, t, FetchNext, |s.vec| - j, At(s, t, Idle));
    }
  }

  /** A batch is appended whole, and then counted. */
  lemma {:induction false} BatchIsAppended(s: State, t: nat, cs: seq<nat>)
    requires PcOf(s, t) == Appending(cs)
    ensures Reaches(s, Again(t, AppendNext, |cs| + 1), Done(s.(vec := s.vec + cs), t, Idle))
    decreases |cs|
  {
    var r := Done(s.(vec := s.vec + cs), t, Idle);
    if cs == [] {
      assert s.vec + cs == s.vec;
      OneStepOn(s, t, AppendNext, 0, r);
    } else {
      var next := At(s.(vec := s.vec + [cs[0]]), t, Appending(cs[1..]));
      assert Step(s, t, AppendNext) == next;
      BatchIsAppended(next, t, cs[1..]);
      assert s.vec + [cs[0]] + cs[1..] == s.vec + cs;
      assert Done(next.(vec := next.vec + cs[1..]), t, Idle) == r;
      OneStepOn(s, t, AppendNext, |cs|, r);
    }
  }

  /** Clearing empties the vector. */
  lemma {:induction false} ClearingEmpties(s: State, t: nat)
    requires PcOf(s, t) == Clearing
    ensures Reaches(s, Again(t, ClearNext, |s.vec| + 1), Done(s.(vec := [], wiped := s.wiped || s.vec != []), t, Idle))
    decreases |s.vec|
  {
    var r := Done(s.(vec := [], wiped := s.wiped || s.vec != []), t, Idle);
    if s.vec == [] {
      OneStepOn(s, t, ClearNext, 0, r);
    } else {
      var next := At(s.(vec := s.vec[1..], wiped := true), t, Clearing);
      assert Step(s, t, ClearNext) == next;
      ClearingEmpties(next, t);
      assert Done(next.(vec := [], wiped := true), t, Idle) == r;
      OneStepOn(s, t, ClearNext, |s.vec|, r);
    }
  }

  /** The connections from place j on that are not bad. */
  function Sound(s: State, v: seq<nat>): seq<nat> {
    if v == [] then [] else (if Is(s, v[0], Bad) then [] else [v[0]]) + Sound(s, v[1..])
  }

  lemma {:induction false} SoundDependsOnStatus(s: State, r: State, v: seq<nat>)
    requires s.status == r.status
    ensures Sound(s, v) == Sound(r, v)
  {
    if v != [] { SoundDependsOnStatus(s, r, v[1..]); }
  }

  lemma DropStep(s: State, t: nat, j: nat) returns (next: State, i: nat)
    requires PcOf(s, t) == Dropping(j) && j < |s.vec|
    ensures Can(s, t, DropNext) && next == Step(s, t, DropNext) && next.status == s.status
    ensures i <= |next.vec| && PcOf(next, t) == Dropping(i) && |next.vec| - i == |s.vec| - j - 1
    ensures next.vec[i..] == s.vec[j + 1..]
    ensures next.vec[..i] == s.vec[..j] + if Is(s, s.vec[j], Bad) then [] else [s.vec[j]]
    ensures forall v :: Done(next.(vec := v), t, Idle) == Done(s.(vec := v), t, Idle)
  {
    next := Step(s, t, DropNext);
    i := PcOf(next, t).i;
    assert next.pcs[t := Idle] == s.pcs[t := Idle];
  }

  lemma DropEnds(s: State, t: nat, j: nat)
    requires PcOf(s, t) == Dropping(j) && j == |s.vec|
    ensures Reaches(s, Again(t, DropNext, 1), Done(s, t, Idle))
  {
    OneStepOn(s, t, DropNext, 0, Done(s, t, Idle));
  }

  /** The bad connections are dropped, all of them and no others. */
  lemma {:induction false} BadAreDropped(s: State, t: nat, j: nat)
    requires PcOf(s, t) == Dropping(j) && j <= |s.vec|
    ensures Reaches(s, Again(t, DropNext, |s.vec| - j + 1), Done(s.(vec := s.vec[..j] + Sound(s, s.vec[j..])), t, Idle))
    decreases |s.vec| - j
  {
    hide Step, Can, Is, Reaches, Done, Again;
    var v := s.vec;
    if j == |v| {
      assert v[..j] + [] == v;
      DropEnds(s, t, j);
    } else {
      var tail := v[j + 1..];
      var next, i := DropStep(s, t, j);
      assert v[j..][1..] == tail && v[j..][0] == v[j];
      BadAreDropped(next, t, i);
      SoundDependsOnStatus(next, s, tail);
      assert next.vec[..i] + Sound(s, tail) == v[..j] + Sound(s, v[j..]);
      OneStepOn(s, t, DropNext, |v| - j, Done(s.(vec := v[..j] + Sound(s, v[j..])), t, Idle));
    }
  }

  /** What deleting leaves of a vector, `left` free connections at most being taken (all, below 0). */
  function Spared(s: State, v: seq<nat>, left: int): seq<nat> {
    if v == [] || left == 0 then v
    else if Is(s, v[0], NotUsed) then Spared(s, v[1..], left - 1)
    else [v[0]] + Spared(s, v[1..], left)
  }

  function FreeIn(s: State, v: seq<nat>): nat {
    if v == [] then 0 else (if Is(s, v[0], NotUsed) then 1 else 0) + FreeIn(s, v[1..])
  }

  /** As many free ones are taken as asked for, if there are that many. */
  lemma {:induction false} SparedCount(s: State, v: seq<nat>, left: int)
    ensures |v| - |Spared(s, v, left)| == if 0 <= left < FreeIn(s, v) then left else FreeIn(s, v)
  {
    if v != [] && left != 0 {
      SparedCount(s, v[1..], if Is(s, v[0], NotUsed) then left - 1 else left);
    } else if v != [] {
      SparedCount(s, v[1..], 0);
    }
  }

  lemma {:induction false} SparedElsewhere(s: State, r: State, v: seq<nat>, left: int)
    requires forall i :: 0 <= i < |v| ==> (Is(s, v[i], NotUsed) <==> Is(r, v[i], NotUsed))
    ensures Spared(s, v, left) == Spared(r, v, left)
  {
    if v != [] && left != 0 {
      SparedElsewhere(s, r, v[1..], if Is(s, v[0], NotUsed) then left - 1 else left);
    }
  }

  /** One step of deleting at a place that it has reached. */
  lemma DeleteStep(s: State, t: nat, j: nat, left: int) returns (next: State)
    requires PcOf(s, t) == Deleting(j, left) && j < |s.vec| && left != 0 && Distinct(s.vec)
    ensures Can(s, t, DeleteNext) && next == Step(s, t, DeleteNext) && Distinct(next.vec)
    ensures var free := Is(s, s.vec[j], NotUsed);
            && PcOf(next, t) == (if free then Deleting(j, left - 1) else Deleting(j + 1, left))
            && next.vec == (if free then s.vec[..j] + s.vec[j + 1..] else s.vec)
    ensures forall i :: j < i < |s.vec| ==> (Is(next, s.vec[i], NotUsed) <==> Is(s, s.vec[i], NotUsed))
  {
    next := Step(s, t, DeleteNext);
  }

  lemma DeleteEnds(s: State, t: nat, j: nat, left: int)
    requires PcOf(s, t) == Deleting(j, left) && (left == 0 || j == |s.vec|)
    ensures Reaches(s, Again(t, DeleteNext, 1), Done(s, t, Idle))
  {
    OneStepOn(s, t, DeleteNext, 0, Done(s, t, Idle));
  }

  /** And what it leaves to be done gives the same. */
  lemma DeleteOnwards(s: State, t: nat, j: nat, left: int) returns (next: State, i: nat, rest: int)
    requires PcOf(s, t) == Deleting(j, left) && j < |s.vec| && left != 0 && Distinct(s.vec)
    ensures Can(s, t, DeleteNext) && next == Step(s, t, DeleteNext) && Distinct(next.vec)
    ensures PcOf(next, t) == Deleting(i, rest) && i <= |next.vec| && |next.vec| - i == |s.vec| - j - 1
    ensures next.vec[..i] + Spared(next, next.vec[i..], rest) == s.vec[..j] + Spared(s, s.vec[j..], left)
  {
    hide Step, Can, Is, Distinct;
    var v := s.vec;
    var tail := v[j + 1..];
    next := DeleteStep(s, t, j, left);
    assert v[j..][1..] == tail && v[j..][0] == v[j];
    if Is(s, v[j], NotUsed) {
      i, rest := j, left - 1;
      assert next.vec[..i] == v[..j] && next.vec[i..] == tail;
      SparedElsewhere(s, next, tail, rest);
    } else {
      i, rest := j + 1, left;
      SparedElsewhere(s, next, tail, rest);
      assert v[..j + 1] + Spared(s, tail, left) == v[..j] + ([v[j]] + Spared(s, tail, left));
    }
  }

  /** Deleting takes the first free connections, no more than the limit, and counts what is left. */
  lemma {:induction false} DeletionSpares(s: State, t: nat, j: nat, left: int) returns (n: nat, r: State)
    requires PcOf(s, t) == Deleting(j, left) && j <= |s.vec| && Distinct(s.vec)
    ensures Reaches(s, Again(t, DeleteNext, n), r)
    ensures PcOf(r, t) == Idle && r.vec == s.vec[..j] + Spared(s, s.vec[j..], left) && r.count == |r.vec|
    decreases |s.vec| - j
  {
    hide Step, Can, Is, Distinct, Reaches, Again;
    if left == 0 || j == |s.vec| {
      assert s.vec[..j] + s.vec[j..] == s.vec;
      n, r := 1, Done(s, t, Idle);
      DeleteEnds(s, t, j, left);
    } else {
      hide Spared, PcOf;
      var next, i, rest := DeleteOnwards(s, t, j, left);
      var m: nat;
      m, r := DeletionSpares(next, t, i, rest);
      n := m + 1;
      OneStepOn(s, t, DeleteNext, m, r);
    }
  }

  lemma PingEnds(s: State, t: nat)
    requires PcOf(s, t) == Pinging([])
    ensures Reaches(s, Again(t, PingNext, 1), At(s, t, Idle))
  {
    OneStepOn(s, t, PingNext, 0, At(s, t, Idle));
  }

  lemma PassedOver(s: State, t: nat, cs: seq<nat>, next: State)
    requires PcOf(s, t) == Pinging(cs) && cs != [] && !Is(s, cs[0], NotUsed) && next == At(s, t, Pinging(cs[1..]))
    ensures Can(s, t, PingNext) && Step(s, t, PingNext) == next
  {
  }

  lemma CheckAndBack(s: State, t: nat, cs: seq<nat>, checked: State, next: State)
    requires PcOf(s, t) == Pinging(cs) && cs != [] && Is(s, cs[0], NotUsed)
    requires checked == At(Set(s, cs[0], BeingChecked), t, Checking(cs[0], cs[1..]))
    requires next == At(s, t, Pinging(cs[1..]))
    ensures Can(s, t, PingNext) && Step(s, t, PingNext) == checked
    ensures Can(checked, t, Pinged(Alive)) && Step(checked, t, Pinged(Alive)) == next
  {
    assert s.status[cs[0] := BeingChecked][cs[0] := NotUsed] == s.status;
  }

  /** A ping that finds every connection alive leaves all as it was. */
  lemma {:induction false} PingRestores(s: State, t: nat, cs: seq<nat>) returns (steps: seq<(nat, Action)>)
    requires PcOf(s, t) == Pinging(cs)
    ensures Reaches(s, steps, At(s, t, Idle))
    decreases |cs|
  {
    hide Can, Step, Reaches;
    if cs == [] {
      steps := Again(t, PingNext, 1);
      PingEnds(s, t);
    } else {
      var next := At(s, t, Pinging(cs[1..]));
      Overtaken(s, t, Pinging(cs[1..]), Idle);
      var rest := PingRestores(next, t, cs[1..]);
      if Is(s, cs[0], NotUsed) {
        var checked := At(Set(s, cs[0], BeingChecked), t, Checking(cs[0], cs[1..]));
        CheckAndBack(s, t, cs, checked, next);
        StepThen(checked, t, Pinged(Alive), rest, At(s, t, Idle));
        steps := [(t, PingNext)] + ([(t, Pinged(Alive))] + rest);
        StepThen(s, t, PingNext, [(t, Pinged(Alive))] + rest, At(s, t, Idle));
      } else {
        PassedOver(s, t, cs, next);
        steps := [(t, PingNext)] + rest;
        StepThen(s, t, PingNext, rest, At(s, t, Idle));
      }
    }
  }

  // ----- And the whole operations, from where the thread was idle

  lemma StepThen(s: State, t: nat, a: Action, rest: seq<(nat, Action)>, r: State)
    requires Can(s, t, a) && Reaches(Step(s, t, a), rest, r)
    ensures Reaches(s, [(t, a)] + rest, r)
  {
    hide Can, Step;
    assert ([(t, a)] + rest)[1..] == rest;
  }

  lemma {:induction false} ReachesThrough(s: State, first: seq<(nat, Action)>, m: State,
                                          second: seq<(nat, Action)>, r: State)
    requires Reaches(s, first, m) && Reaches(m, second, r)
    ensures Reaches(s, first + second, r)
    decreases |first|
  {
    hide Step, Can;
    if first == [] {
      assert first + second == second;
    } else {
      var (t, a) := first[0];
      ReachesThrough(Step(s, t, a), first[1..], m, second, r);
      assert first + second == [(t, a)] + (first[1..] + second);
    }
  }

  /** fetch_connection gives the first free connection, marked as in use. */
  lemma WholeFetch(s: State, t: nat, i: nat)
    requires Can(s, t, StartFetch) && i < |s.vec| && Is(s, s.vec[i], NotUsed)
    requires forall k :: 0 <= k < i ==> !Is(s, s.vec[k], NotUsed)
    ensures Reaches(s, [(t, StartFetch)] + Again(t, FetchNext, i + 1), At(Set(s, s.vec[i], InUse), t, Using(s.vec[i])))
  {
    var next, c := Step(s, t, StartFetch), s.vec[i];
    FetchTakesFirst(next, t, 0, i);
    Overtaken(Set(s, c, InUse), t, Fetching(0), Using(c));
    assert At(Set(next, c, InUse), t, Using(c)) == At(Set(s, c, InUse), t, Using(c));
    StepThen(s, t, StartFetch, Again(t, FetchNext, i + 1), At(Set(s, c, InUse), t, Using(c)));
  }

  lemma WholeFetchInVain(s: State, t: nat)
    requires Can(s, t, StartFetch) && forall k :: 0 <= k < |s.vec| ==> !Is(s, s.vec[k], NotUsed)
    ensures Reaches(s, [(t, StartFetch)] + Again(t, FetchNext, |s.vec| + 1), At(s, t, Idle))
  {
    var next := Step(s, t, StartFetch);
    FetchGivesUp(next, t, 0);
    Overtaken(s, t, Fetching(0), Idle);
    StepThen(s, t, StartFetch, Again(t, FetchNext, |s.vec| + 1), At(s, t, Idle));
  }

  /** delete_connection_not_used takes the first `limit` free connections, or all. */
  lemma WholeDeletion(s: State, t: nat, limit: int) returns (n: nat, r: State)
    requires Can(s, t, LockToDelete(limit)) && Distinct(s.vec)
    ensures Reaches(s, [(t, LockToDelete(limit))] + Again(t, DeleteNext, n), r)
    ensures PcOf(r, t) == Idle && r.vec == Spared(s, s.vec, limit) && r.count == |r.vec|
  {
    var next := Step(s, t, LockToDelete(limit));
    n, r := DeletionSpares(next, t, 0, limit);
    assert next.vec == s.vec && s.vec[..0] == [] && s.vec[0..] == s.vec;
    SparedElsewhere(next, s, s.vec, limit);
    assert [] + Spared(s, s.vec, limit) == Spared(s, s.vec, limit);
    StepThen(s, t, LockToDelete(limit), Again(t, DeleteNext, n), r);
  }

  /** _detect_bad drops the bad connections. */
  lemma WholeDrop(s: State, t: nat)
    requires Can(s, t, LockToDrop)
    ensures Reaches(s, [(t, LockToDrop)] + Again(t, DropNext, |s.vec| + 1), Done(s.(vec := Sound(s, s.vec)), t, Idle))
  {
    var next := Step(s, t, LockToDrop);
    BadAreDropped(next, t, 0);
    assert s.vec[..0] == [] && s.vec[0..] == s.vec && [] + Sound(next, s.vec) == Sound(next, s.vec);
    SoundDependsOnStatus(next, s, s.vec);
    assert next.pcs[t := Idle] == s.pcs[t := Idle];
    StepThen(s, t, LockToDrop, Again(t, DropNext, |s.vec| + 1), Done(s.(vec := Sound(s, s.vec)), t, Idle));
  }

  /** _ping looks at every connection; alive, they are as before. */
  lemma WholePing(s: State, t: nat) returns (steps: seq<(nat, Action)>)
    requires Can(s, t, CopyForPing)
    ensures PcOf(Step(s, t, CopyForPing), t) == Pinging(s.vec)
    ensures Reaches(s, steps, At(s, t, Idle))
  {
    var next := Step(s, t, CopyForPing);
    var rest := PingRestores(next, t, s.vec);
    Overtaken(s, t, Pinging(s.vec), Idle);
    StepThen(s, t, CopyForPing, rest, At(s, t, Idle));
    steps := [(t, CopyForPing)] + rest;
  }

  /** Closing a fetched connection undoes the fetch. */
  lemma FetchThenClose(s: State, t: nat, i: nat)
    requires Can(s, t, StartFetch) && i < |s.vec| && Is(s, s.vec[i], NotUsed)
    requires forall k :: 0 <= k < i ==> !Is(s, s.vec[k], NotUsed)
    ensures Reaches(s, [(t, StartFetch)] + Again(t, FetchNext, i + 1) + [(t, Close(true))], At(s, t, Idle))
  {
    var c := s.vec[i];
    var q := At(Set(s, c, InUse), t, Using(c));
    WholeFetch(s, t, i);
    assert s.status[c := InUse][c := NotUsed] == s.status;
    assert q.pcs[t := Idle] == s.pcs[t := Idle];
    assert Step(q, t, Close(true)) == At(s, t, Idle);
    assert Reaches(q, [(t, Close(true))], At(s, t, Idle)) by {
      StepThen(q, t, Close(true), [], At(s, t, Idle));
      assert [(t, Close(true))] + [] == [(t, Close(true))];
    }
    ReachesThrough(s, [(t, StartFetch)] + Again(t, FetchNext, i + 1), q, [(t, Close(true))], At(s, t, Idle));
  }

  /** The next n connections made, unused. */
  function Fresh(s: State, n: nat): seq<nat> { seq(n, i => |s.status| + i) }

  function Made(s: State, n: nat): State { s.(status := s.status + seq(n, _ => NotUsed)) }

  lemma FreshCount(s: State, n: nat)
    ensures |Fresh(s, n)| == n
  {
  }

  lemma FillOnce(s: State, t: nat, cs: seq<nat>)
    requires PcOf(s, t) == Filling(cs) || (PcOf(s, t) == Idle && cs == [])
    ensures Can(s, t, Fill) && Step(s, t, Fill) == At(Made(s, 1), t, Filling(cs + Fresh(s, 1)))
  {
    assert seq(1, _ => NotUsed) == [NotUsed] && Fresh(s, 1) == [|s.status|];
  }

  lemma MadeAgain(s: State, n: nat)
    ensures Made(Made(s, 1), n) == Made(s, n + 1) && Fresh(s, 1) + Fresh(Made(s, 1), n) == Fresh(s, n + 1)
  {
  }

  /** A batch is made before it is appended. */
  lemma {:induction false} BatchIsMade(s: State, t: nat, cs: seq<nat>, n: nat)
    requires PcOf(s, t) == Filling(cs) || (PcOf(s, t) == Idle && cs == [] && n > 0)
    ensures Reaches(s, Again(t, Fill, n), if n == 0 then s else At(Made(s, n), t, Filling(cs + Fresh(s, n))))
    decreases n
  {
    if n > 0 {
      FillOnce(s, t, cs);
      var next, more := Step(s, t, Fill), cs + Fresh(s, 1);
      hide Can, Step, Made, Fresh;
      BatchIsMade(next, t, more, n - 1);
      MadeFrom(s, t, cs, n);
      OneStepOn(s, t, Fill, n - 1, At(Made(s, n), t, Filling(cs + Fresh(s, n))));
    }
  }

  lemma MadeFrom(s: State, t: nat, cs: seq<nat>, n: nat)
    requires n > 0
    ensures var next := At(Made(s, 1), t, Filling(cs + Fresh(s, 1)));
            At(Made(s, n), t, Filling(cs + Fresh(s, n))) ==
            if n == 1 then next else At(Made(next, n - 1), t, Filling(cs + Fresh(s, 1) + Fresh(next, n - 1)))
  {
    var next := At(Made(s, 1), t, Filling(cs + Fresh(s, 1)));
    MadeAgain(s, n - 1);
    assert Fresh(next, n - 1) == Fresh(Made(s, 1), n - 1);
    assert cs + Fresh(s, 1) + Fresh(next, n - 1) == cs + Fresh(s, n);
    assert Made(next, n - 1).status == Made(s, n).status;
  }

  lemma LockStaysFree(s: State, q: State, t: nat, p: Pc)
    requires LockFree(s) && q.pcs == s.pcs[t := p] && !Writes(p) && !Reads(p)
    ensures LockFree(q)
  {
    assert forall u: nat :: u != t ==> PcOf(q, u) == PcOf(s, u);
  }

  lemma AppendStep(q: State, t: nat, cs: seq<nat>)
    requires PcOf(q, t) == Filling(cs) && LockFree(q)
    ensures Can(q, t, LockToAppend) && Step(q, t, LockToAppend) == At(q, t, Appending(cs))
  {
  }

  /** add_connection appends n new connections, free to be used. */
  lemma WholeBatch(s: State, t: nat, n: nat)
    requires PcOf(s, t) == Idle && LockFree(s) && n > 0
    ensures Reaches(s, Again(t, Fill, n) + ([(t, LockToAppend)] + Again(t, AppendNext, n + 1)),
                    Done(Made(s, n).(vec := s.vec + Fresh(s, n)), t, Idle))
  {
    hide Can, Step, Reaches, LockFree, Fresh;
    var cs := Fresh(s, n);
    var q := At(Made(s, n), t, Filling(cs));
    assert [] + cs == cs;
    BatchIsMade(s, t, [], n);
    LockStaysFree(s, q, t, Filling(cs));
    AppendStep(q, t, cs);
    var next, r := At(q, t, Appending(cs)), Done(Made(s, n).(vec := s.vec + cs), t, Idle);
    BatchIsAppended(next, t, cs);
    FreshCount(s, n);
    assert next.pcs[t := Idle] == s.pcs[t := Idle];
    assert Done(next.(vec := next.vec + cs), t, Idle) == r;
    StepThen(q, t, LockToAppend, Again(t, AppendNext, n + 1), r);
    ReachesThrough(s, Again(t, Fill, n), q, [(t, LockToAppend)] + Again(t, AppendNext, n + 1), r);
  }

  lemma NewStep(s: State, t: nat)
    requires PcOf(s, t) == Idle
    ensures Can(s, t, New)
    ensures Step(s, t, New) == At(s.(status := s.status + [NotConnected]), t, Opening(|s.status|))
  {
  }

  lemma ConnectStep(s: State, t: nat, c: nat)
    requires PcOf(s, t) == Opening(c)
    ensures Can(s, t, Connect(true)) && Step(s, t, Connect(true)) == At(Set(s, c, NotUsed), t, Opened(c))
  {
  }

  lemma ClaimStep(s: State, t: nat, c: nat)
    requires PcOf(s, t) == Opened(c) && Is(s, c, NotUsed)
    ensures Can(s, t, Claim) && Step(s, t, Claim) == At(Set(s, c, InUse), t, Claimed(c))
  {
  }

  lemma Stays(s: State)
    ensures Reaches(s, [], s)
  {
  }

  lemma Reset(s: State, t: nat, c: nat, x: Status, y: Status, p: Pc, q: Pc)
    requires c == |s.status|
    ensures At(Set(At(s.(status := s.status + [x]), t, p), c, y), t, q) == At(s.(status := s.status + [y]), t, q)
  {
    assert (s.status + [x])[c := y] == s.status + [y];
  }

  lemma NewIsClaimed(s: State, t: nat)
    requires PcOf(s, t) == Idle
    ensures Reaches(s, [(t, New)] + ([(t, Connect(true))] + ([(t, Claim)] + [])),
                    At(s.(status := s.status + [InUse]), t, Claimed(|s.status|)))
  {
    hide Can, Step, Reaches;
    var c := |s.status|;
    var s1 := At(s.(status := s.status + [NotConnected]), t, Opening(c));
    var s2 := At(s.(status := s.status + [NotUsed]), t, Opened(c));
    var s3 := At(s.(status := s.status + [InUse]), t, Claimed(c));
    NewStep(s, t);
    Reset(s, t, c, NotConnected, NotUsed, Opening(c), Opened(c));
    ConnectStep(s1, t, c);
    Reset(s, t, c, NotUsed, InUse, Opened(c), Claimed(c));
    ClaimStep(s2, t, c);
    Stays(s3);
    StepThen(s2, t, Claim, [], s3);
    StepThen(s1, t, Connect(true), [(t, Claim)] + [], s3);
    StepThen(s, t, New, [(t, Connect(true))] + ([(t, Claim)] + []), s3);
  }

  lemma ClaimedIsLinked(s: State, t: nat, c: nat)
    requires PcOf(s, t) == Claimed(c) && LockFree(s)
    ensures Reaches(s, [(t, LockToPush)] + ([(t, Push)] + ([(t, Publish)] + [])),
                    Done(s.(vec := s.vec + [c]), t, Using(c)))
  {
    var s1 := Step(s, t, LockToPush);
    var s2 := Step(s1, t, Push);
    var s3 := Step(s2, t, Publish);
    assert s3 == Done(s.(vec := s.vec + [c]), t, Using(c));
    hide Can, Step;
    StepThen(s2, t, Publish, [], s3);
    StepThen(s1, t, Push, [(t, Publish)] + [], s3);
    StepThen(s, t, LockToPush, [(t, Push)] + ([(t, Publish)] + []), s3);
  }

  lemma Six<T>(a: T, b: T, c: T, d: T, e: T, f: T)
    ensures [a] + ([b] + ([c] + [])) + ([d] + ([e] + ([f] + []))) == [a, b, c, d, e, f]
  {
  }

  /** new_special_connection makes a connection, appends it and gives it out in use. */
  lemma WholeNew(s: State, t: nat)
    requires PcOf(s, t) == Idle && LockFree(s)
    ensures var c := |s.status|;
            Reaches(s, [(t, New), (t, Connect(true)), (t, Claim), (t, LockToPush), (t, Push), (t, Publish)],
                    Done(s.(status := s.status + [InUse], vec := s.vec + [c]), t, Using(c)))
  {
    var c := |s.status|;
    var q := At(s.(status := s.status + [InUse]), t, Claimed(c));
    var r := Done(s.(status := s.status + [InUse], vec := s.vec + [c]), t, Using(c));
    hide Reaches, LockFree, Can, Step;
    LockStaysFree(s, q, t, Claimed(c));
    assert Done(q.(vec := q.vec + [c]), t, Using(c)) == r;
    NewIsClaimed(s, t);
    ClaimedIsLinked(q, t, c);
    var first := [(t, New)] + ([(t, Connect(true))] + ([(t, Claim)] + []));
    var rest := [(t, LockToPush)] + ([(t, Push)] + ([(t, Publish)] + []));
    ReachesThrough(s, first, q, rest, r);
    Six((t, New), (t, Connect(true)), (t, Claim), (t, LockToPush), (t, Push), (t, Publish));
  }

  // ----- Closing once

  /** Connection::close on connection c by whoever still has a pointer to it. */
  function Stray(s: State, c: nat): State { if Is(s, c, InUse) then Set(s, c, NotUsed) else s }

  /** A close that is not the owner's is harmless exactly when nobody uses the connection. */
  lemma StrayCloseIff(s: State, c: nat)
    requires Inv(s)
    ensures OwnedOnce(Stray(s, c)) <==> !Is(s, c, InUse) || forall t: nat :: !Owns(s, t, c)
    ensures OwnedOnce(Stray(s, c)) ==> Inv(Stray(s, c))
  {
    var r := Stray(s, c);
    assert forall t: nat :: PcOf(r, t) == PcOf(s, t);
    if !Is(s, c, InUse) {
      assert r == s;
    } else if forall t: nat :: !Owns(s, t, c) {
      UnownedCloseKeepsInv(s, c);
    } else {
      var t: nat :| Owns(s, t, c);
      assert Fitting(s, t, c);
      assert Owns(r, t, c) && !Fitting(r, t, c);
    }
  }

  lemma UnownedCloseKeepsInv(s: State, c: nat)
    requires Inv(s) && Is(s, c, InUse) && forall t: nat :: !Owns(s, t, c)
    ensures Inv(Stray(s, c))
  {
    var r := Stray(s, c);
    assert r.pcs == s.pcs && r.vec == s.vec && r.count == s.count && r.wiped == s.wiped;
    assert forall t: nat :: PcOf(r, t) == PcOf(s, t);
    forall t: nat, d: nat | Owns(r, t, d) ensures Fitting(r, t, d) {
      assert Owns(s, t, d);
    }
    forall t: nat, u: nat, d: nat | Owns(r, t, d) && Owns(r, u, d) ensures t == u {
      assert Owns(s, t, d) && Owns(s, u, d);
    }
    forall t: nat, d: nat | Hides(r, t, d) ensures d !in r.vec && forall u: nat :: !Copies(r, u, d) {
      assert Hides(s, t, d);
      assert forall u: nat :: Copies(r, u, d) == Copies(s, u, d);
    }
    forall t: nat, d: nat | Copies(r, t, d) ensures d < |r.status| {
      assert Copies(s, t, d);
    }
    if !r.wiped {
      forall t: nat, d: nat | Owns(r, t, d) && !Hides(r, t, d) ensures d in r.vec {
        assert Owns(s, t, d) && !Hides(s, t, d);
      }
      forall t: nat, d: nat | Copies(r, t, d) && d < |r.status| && Live(r.status[d]) ensures d in r.vec {
        assert Copies(s, t, d);
      }
    }
  }

  /** Otherwise a thread that is looking at the connection becomes its second owner in one step. */
  lemma StrayCloseMakesTwoOwners(s: State, c: nat, t: nat, u: nat)
    requires Inv(s) && Is(s, c, InUse) && Owns(s, t, c)
    requires var p := PcOf(s, u); p.Fetching? && p.i < |s.vec| && s.vec[p.i] == c
    ensures Can(Stray(s, c), u, FetchNext) && t != u
    ensures var r := Step(Stray(s, c), u, FetchNext); Owns(r, t, c) && Owns(r, u, c)
  {
  }

  /** Thread 1 makes connection 0 and gives it back. */
  const FIRST_OWNER: seq<(nat, Action)> :=
    [(1, New), (1, Connect(true)), (1, Claim), (1, LockToPush), (1, Push), (1, Publish), (1, Close(true))]

  /** Thread 2 fetches it, and thread 3 is looking for a connection. */
  const SECOND_OWNER: seq<(nat, Action)> := [(2, StartFetch), (2, FetchNext), (3, StartFetch)]

  /** A state in which only thread 1 has done anything. */
  function Lone(status: Status, vec: seq<nat>, count: nat, p: Pc): State {
    State([status], vec, count, map[1 := p], false, {})
  }

  lemma FirstOwner(made: State)
    requires made == Lone(NotUsed, [0], 1, Idle)
    ensures Reaches(Start(), FIRST_OWNER, made)
  {
    FirstSteps();
    LaterSteps();
    hide Step, Can;
    var l6 := [(1, Close(true))] + [];
    var l5 := [(1, Publish)] + l6;
    var l4 := [(1, Push)] + l5;
    var l3 := [(1, LockToPush)] + l4;
    var l2 := [(1, Claim)] + l3;
    var l1 := [(1, Connect(true))] + l2;
    assert [(1, New)] + l1 == FIRST_OWNER;
  }

  lemma FirstSteps()
    ensures Can(Start(), 1, New) && Step(Start(), 1, New) == Lone(NotConnected, [], 0, Opening(0))
    ensures var s := Lone(NotConnected, [], 0, Opening(0));
            Can(s, 1, Connect(true)) && Step(s, 1, Connect(true)) == Lone(NotUsed, [], 0, Opened(0))
    ensures var s := Lone(NotUsed, [], 0, Opened(0)); Can(s, 1, Claim) && Step(s, 1, Claim) == Lone(InUse, [], 0, Claimed(0))
  {
  }

  lemma LaterSteps()
    ensures var s := Lone(InUse, [], 0, Claimed(0));
            Can(s, 1, LockToPush) && Step(s, 1, LockToPush) == Lone(InUse, [], 0, Linking(0))
    ensures var s := Lone(InUse, [], 0, Linking(0)); Can(s, 1, Push) && Step(s, 1, Push) == Lone(InUse, [0], 0, Linked(0))
    ensures var s := Lone(InUse, [0], 0, Linked(0)); Can(s, 1, Publish) && Step(s, 1, Publish) == Lone(InUse, [0], 1, Using(0))
    ensures var s := Lone(InUse, [0], 1, Using(0));
            Can(s, 1, Close(true)) && Step(s, 1, Close(true)) == Lone(NotUsed, [0], 1, Idle)
  {
  }

  lemma SecondOwner(made: State, used: State)
    requires made == Lone(NotUsed, [0], 1, Idle)
    requires used == State([InUse], [0], 1, map[1 := Idle, 2 := Using(0), 3 := Fetching(0)], false, {})
    ensures Reaches(made, SECOND_OWNER, used)
  {
    var looking := made.(pcs := map[1 := Idle, 2 := Fetching(0)]);
    var fetched := State([InUse], [0], 1, map[1 := Idle, 2 := Using(0)], false, {});
    assert NoWriter(made) && Step(made, 2, StartFetch) == looking;
    assert Step(looking, 2, FetchNext) == fetched;
    assert NoWriter(fetched) && Step(fetched, 3, StartFetch) == used;
    hide Step;
    assert [(2, StartFetch)] + [(2, FetchNext), (3, StartFetch)] == SECOND_OWNER;
    assert [(2, FetchNext)] + [(3, StartFetch)] == [(2, FetchNext), (3, StartFetch)];
    assert [(3, StartFetch)] + [] == [(3, StartFetch)];
  }

  lemma StrayThenFetch(s: State)
    requires s == State([InUse], [0], 1, map[1 := Idle, 2 := Using(0), 3 := Fetching(0)], false, {})
    ensures Can(Stray(s, 0), 3, FetchNext)
    ensures var r := Step(Stray(s, 0), 3, FetchNext); PcOf(r, 2) == Using(0) && PcOf(r, 3) == Using(0)
  {
  }

  /** Then thread 1 closes connection 0 once more, and threads 2 and 3 share it. */
  lemma StrayCloseSharesConnection(s: State)
    requires s == State([InUse], [0], 1, map[1 := Idle, 2 := Using(0), 3 := Fetching(0)], false, {})
    ensures Reaches(Start(), FIRST_OWNER + SECOND_OWNER, s)
    ensures Can(Stray(s, 0), 3, FetchNext)
    ensures var r := Step(Stray(s, 0), 3, FetchNext); PcOf(r, 2) == Using(0) && PcOf(r, 3) == Using(0)
  {
    StrayThenFetch(s);
    hide Reaches, Step, Can, PcOf;
    var made := Lone(NotUsed, [0], 1, Idle);
    FirstOwner(made);
    SecondOwner(made, s);
    ReachesThrough(Start(), FIRST_OWNER, made, SECOND_OWNER, s);
  }
}
