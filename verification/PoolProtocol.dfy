/** The borrowing protocol of base/base/BorrowedObjectPool.h as steps of its threads: every critical section under the
    mutex, every notification and every wake-up is one step, and steps of different threads interleave freely. */
module PoolProtocol {
  type Object = nat
  type Thread = nat

  /** The fields the mutex guards. */
  datatype Store = Store(maxSize: nat, objects: seq<Object>, allocatedSize: nat, borrowedSize: int)

  /** Where a thread is inside a call: waiting on the condition variable, woken but without the mutex yet, or after the
      critical section of a return and before its notification. Other threads are outside any call. */
  datatype Phase = Sleeping(timed: bool) | Woken(timed: bool, expired: bool) | Notifying

  datatype State = State(store: Store, held: multiset<Object>, threads: map<Thread, Phase>)

  datatype Event =
    | BorrowIdle(t: Thread)
    | Allocate(t: Thread, made: Object)
    | Sleep(t: Thread, timed: bool)
    | Return(t: Thread, o: Object)
    | Notify(t: Thread, chosen: Thread)
    | WakeUp(t: Thread)
    | Expire(t: Thread)
    | Recheck(t: Thread)

  function Init(maxSize: nat): State {
    State(Store(maxSize, [], 0, 0), multiset{}, map[])
  }

  // ----- Critical sections -----

  predicate MayAllocate(store: Store) {
    store.maxSize == 0 || store.allocatedSize < store.maxSize
  }

  /** borrowFromObjects: the last object of the stack. */
  function Popped(store: Store): Store
    requires store.objects != []
  {
    store.(objects := store.objects[..|store.objects| - 1], borrowedSize := store.borrowedSize + 1)
  }

  function Last(store: Store): Object
    requires store.objects != []
  {
    store.objects[|store.objects| - 1]
  }

  function Grown(store: Store): Store {
    store.(allocatedSize := store.allocatedSize + 1, borrowedSize := store.borrowedSize + 1)
  }

  function Pushed(store: Store, o: Object): Store {
    store.(objects := store.objects + [o], borrowedSize := store.borrowedSize - 1)
  }

  // ----- Steps -----

  function Sleepers(s: State): set<Thread> {
    set t | t in s.threads && s.threads[t].Sleeping?
  }

  function Wakened(s: State): set<Thread> {
    set t | t in s.threads && s.threads[t].Woken?
  }

  function Notifiers(s: State): set<Thread> {
    set t | t in s.threads && s.threads[t].Notifying?
  }

  /** The steps possible in a state. A new object is one nobody holds, and a client returns an object it holds. */
  predicate Enabled(s: State, e: Event) {
    match e
    case BorrowIdle(t) => t !in s.threads && s.store.objects != []
    case Allocate(t, made) => t !in s.threads && s.store.objects == [] && MayAllocate(s.store) && made !in s.held
    case Sleep(t, timed) => t !in s.threads && s.store.objects == [] && !MayAllocate(s.store)
    case Return(t, o) => t !in s.threads && o in s.held
    case Notify(t, chosen) => t in Notifiers(s) && (Sleepers(s) != {} ==> chosen in Sleepers(s))
    case WakeUp(t) => t in Sleepers(s)
    case Expire(t) => t in Sleepers(s) && s.threads[t].timed
    case Recheck(t) => t in Wakened(s)
  }

  function Without(threads: map<Thread, Phase>, t: Thread): map<Thread, Phase> {
    map u | u in threads && u != t :: threads[u]
  }

  function Apply(s: State, e: Event): State
    requires Enabled(s, e)
  {
    match e
    case BorrowIdle(_) => s.(store := Popped(s.store), held := s.held + multiset{Last(s.store)})
    case Allocate(_, made) => s.(store := Grown(s.store), held := s.held + multiset{made})
    case Sleep(t, timed) => s.(threads := s.threads[t := Sleeping(timed)])
    case Return(t, o) =>
      State(Pushed(s.store, o), s.held - multiset{o}, s.threads[t := Notifying])
    case Notify(t, chosen) =>
      var rest := Without(s.threads, t);
      if Sleepers(s) == {} then s.(threads := rest)
      else s.(threads := rest[chosen := Woken(s.threads[chosen].timed, false)])
    case WakeUp(t) => s.(threads := s.threads[t := Woken(s.threads[t].timed, false)])
    case Expire(t) => s.(threads := s.threads[t := Woken(true, true)])
    case Recheck(t) =>
      if s.store.objects != [] then
        State(Popped(s.store), s.held + multiset{Last(s.store)}, Without(s.threads, t))
      else if s.threads[t].expired then s.(threads := Without(s.threads, t))
      else s.(threads := s.threads[t := Sleeping(s.threads[t].timed)])
  }

  ghost predicate Possible(s: State, run: seq<Event>)
    decreases |run|
  {
    run == [] || (Enabled(s, run[0]) && Possible(Apply(s, run[0]), run[1..]))
  }

  ghost function Run(s: State, run: seq<Event>): State
    requires Possible(s, run)
    decreases |run|
  {
    if run == [] then s else Run(Apply(s, run[0]), run[1..])
  }

  // ----- The invariant -----

  /** All objects the pool has made. */
  ghost function All(s: State): multiset<Object> {
    multiset(s.store.objects) + s.held
  }

  ghost predicate Distinct(m: multiset<Object>) {
    forall o :: m[o] <= 1
  }

  ghost predicate Counted(s: State) {
    && s.store.borrowedSize == |s.held|
    && s.store.allocatedSize == |s.store.objects| + |s.held|
    && (s.store.maxSize > 0 ==> s.store.allocatedSize <= s.store.maxSize)
  }

  /** Threads wait only for a pool that is full. */
  ghost predicate WaitsWhenFull(s: State) {
    Sleepers(s) != {} || Wakened(s) != {} ==> s.store.maxSize > 0 && s.store.allocatedSize == s.store.maxSize
  }

  /** While somebody sleeps, there is a notification or a woken thread for every idle object. */
  ghost predicate NoLostWakeup(s: State) {
    Sleepers(s) != {} ==> |s.store.objects| <= |Notifiers(s)| + |Wakened(s)|
  }

  ghost predicate Inv(s: State) {
    Counted(s) && Distinct(All(s)) && WaitsWhenFull(s) && NoLostWakeup(s)
  }

  // ----- Objects -----

  lemma LastOut(objects: seq<Object>)
    requires objects != []
    ensures multiset(objects) == multiset(objects[..|objects| - 1]) + multiset{objects[|objects| - 1]}
  {
    assert objects == objects[..|objects| - 1] + [objects[|objects| - 1]];
  }

  /** No step loses or duplicates an object; only an allocation adds one. */
  lemma Conservation(s: State, e: Event)
    requires Enabled(s, e)
    ensures e.Allocate? ==> All(Apply(s, e)) == All(s) + multiset{e.made}
    ensures !e.Allocate? ==> All(Apply(s, e)) == All(s)
  {
    hide Sleepers, Wakened, Notifiers, Without, All;
    var s' := Apply(s, e);
    if s.store.objects != [] {
      LastMoves(s, s');
    }
    if e.Return? {
      FirstMoves(s, s', e.o);
    } else if e.Allocate? {
      NewObject(s, s', e.made);
    } else {
      SameObjects(s, s');
    }
  }

  lemma SameObjects(s: State, s': State)
    ensures s'.store.objects == s.store.objects && s'.held == s.held ==> All(s') == All(s)
  {
  }

  lemma NewObject(s: State, s': State, o: Object)
    requires s'.store.objects == s.store.objects && s'.held == s.held + multiset{o}
    ensures All(s') == All(s) + multiset{o}
  {
  }

  lemma LastMoves(s: State, s': State)
    requires s.store.objects != []
    ensures s'.store == Popped(s.store) && s'.held == s.held + multiset{Last(s.store)} ==> All(s') == All(s)
  {
    LastOut(s.store.objects);
  }

  lemma FirstMoves(s: State, s': State, o: Object)
    requires o in s.held && s'.store == Pushed(s.store, o) && s'.held == s.held - multiset{o}
    ensures All(s') == All(s)
  {
    assert multiset(s.store.objects + [o]) == multiset(s.store.objects) + multiset{o};
  }

  lemma CountedKept(s: State, e: Event)
    requires Inv(s) && Enabled(s, e)
    ensures Counted(Apply(s, e)) && Distinct(All(Apply(s, e)))
  {
    hide Sleepers, Wakened, Notifiers, Without, WaitsWhenFull, NoLostWakeup, All, Distinct;
    Conservation(s, e);
    DistinctKept(s, e);
  }

  lemma DistinctKept(s: State, e: Event)
    requires Distinct(All(s)) && Enabled(s, e)
    requires All(Apply(s, e)) == if e.Allocate? then All(s) + multiset{e.made} else All(s)
    ensures Distinct(All(Apply(s, e)))
  {
    hide Sleepers, Wakened, Notifiers, Without, Apply;
    if e.Allocate? {
      assert multiset(s.store.objects) == multiset{};
    }
  }

  // ----- Phases -----

  /** The sets of threads after each step. */
  lemma Phases(s: State, e: Event)
    requires Enabled(s, e)
    ensures var s' := Apply(s, e);
      match e
      case BorrowIdle(_) => Sleepers(s') == Sleepers(s) && Wakened(s') == Wakened(s) && Notifiers(s') == Notifiers(s)
      case Allocate(_, _) => Sleepers(s') == Sleepers(s) && Wakened(s') == Wakened(s) && Notifiers(s') == Notifiers(s)
      case Sleep(t, _) =>
        Sleepers(s') == Sleepers(s) + {t} && Wakened(s') == Wakened(s) && Notifiers(s') == Notifiers(s)
      case Return(t, _) =>
        Sleepers(s') == Sleepers(s) && Wakened(s') == Wakened(s) && Notifiers(s') == Notifiers(s) + {t}
      case Notify(t, chosen) =>
        && Notifiers(s') == Notifiers(s) - {t}
        && (if Sleepers(s) == {} then Sleepers(s') == {} && Wakened(s') == Wakened(s)
            else Sleepers(s') == Sleepers(s) - {chosen} && Wakened(s') == Wakened(s) + {chosen})
      case WakeUp(t) =>
        Sleepers(s') == Sleepers(s) - {t} && Wakened(s') == Wakened(s) + {t} && Notifiers(s') == Notifiers(s)
      case Expire(t) =>
        Sleepers(s') == Sleepers(s) - {t} && Wakened(s') == Wakened(s) + {t} && Notifiers(s') == Notifiers(s)
      case Recheck(t) =>
        && Wakened(s') == Wakened(s) - {t} && Notifiers(s') == Notifiers(s)
        && Sleepers(s') == if s.store.objects != [] || s.threads[t].expired then Sleepers(s) else Sleepers(s) + {t}
  {
  }

  lemma Added(a: set<Thread>, t: Thread)
    ensures t !in a ==> |a + {t}| == |a| + 1
    ensures t in a ==> |a - {t}| == |a| - 1
  {
    if t in a {
      assert a == (a - {t}) + {t};
    }
  }

  lemma WakeupsKept(s: State, e: Event)
    requires Inv(s) && Enabled(s, e)
    ensures WaitsWhenFull(Apply(s, e)) && NoLostWakeup(Apply(s, e))
  {
    Phases(s, e);
    Added(Notifiers(s), e.t);
    Added(Wakened(s), e.t);
    if e.Notify? {
      Added(Wakened(s), e.chosen);
    }
    hide Sleepers, Wakened, Notifiers;
  }

  /** Every step keeps the invariant. */
  lemma StepKeeps(s: State, e: Event)
    requires Inv(s) && Enabled(s, e)
    ensures Inv(Apply(s, e))
  {
    CountedKept(s, e);
    WakeupsKept(s, e);
  }

  lemma {:induction false} RunKeeps(s: State, run: seq<Event>)
    requires Inv(s) && Possible(s, run)
    ensures Inv(Run(s, run)) && Run(s, run).store.maxSize == s.store.maxSize
    decreases |run|
  {
    if run != [] {
      StepKeeps(s, run[0]);
      RunKeeps(Apply(s, run[0]), run[1..]);
    }
  }

  /** In every state that any interleaving reaches from an empty pool: the counters agree with the objects, the limit
      holds, no object is idle or held twice, threads wait only for a full pool, and no wake-up is lost. */
  lemma Safety(maxSize: nat, run: seq<Event>)
    requires Possible(Init(maxSize), run)
    ensures var s := Run(Init(maxSize), run);
      && s.store.allocatedSize == |s.store.objects| + s.store.borrowedSize && s.store.borrowedSize == |s.held|
      && (maxSize > 0 ==> s.store.allocatedSize <= maxSize)
      && (forall o :: multiset(s.store.objects)[o] + s.held[o] <= 1)
      && (Sleepers(s) != {} ==> maxSize > 0 && s.store.allocatedSize == maxSize)
      && (Sleepers(s) != {} ==> |s.store.objects| <= |Notifiers(s)| + |Wakened(s)|)
  {
    RunKeeps(Init(maxSize), run);
    var s := Run(Init(maxSize), run);
    forall o ensures multiset(s.store.objects)[o] + s.held[o] <= 1 {
      assert All(s)[o] <= 1;
    }
  }

  /** The counter of borrowed objects is never decremented below zero. */
  lemma ReturnHasBorrowed(s: State, e: Event)
    requires Inv(s) && Enabled(s, e) && e.Return?
    ensures s.store.borrowedSize > 0
  {
    assert |s.held - multiset{e.o}| == |s.held| - 1;
  }

  // ----- Progress -----

  /** Steps that need nothing but the scheduler: pending notifications and woken threads. */
  predicate Settles(e: Event) {
    e.Notify? || e.Recheck?
  }

  /** A bound on the settling steps a state still has. */
  ghost function Work(s: State): nat {
    2 * |Notifiers(s)| + |Wakened(s)|
  }

  lemma SettleStep(s: State, e: Event)
    requires Enabled(s, e) && Settles(e)
    ensures Work(Apply(s, e)) < Work(s)
  {
    Phases(s, e);
    Added(Notifiers(s), e.t);
    Added(Wakened(s), e.t);
    if e.Notify? {
      Added(Wakened(s), e.chosen);
    }
    hide Sleepers, Wakened, Notifiers;
  }

  lemma SomeSettles(s: State) returns (e: Event)
    requires Work(s) > 0
    ensures Settles(e) && Enabled(s, e)
  {
    if Notifiers(s) != {} {
      var t :| t in Notifiers(s);
      if Sleepers(s) == {} {
        e := Notify(t, t);
      } else {
        var u :| u in Sleepers(s);
        e := Notify(t, u);
      }
    } else {
      var t :| t in Wakened(s);
      e := Recheck(t);
    }
  }

  ghost predicate AllSettle(run: seq<Event>) {
    forall i :: 0 <= i < |run| ==> Settles(run[i])
  }

  /** However they are scheduled, settling steps come to an end. */
  lemma {:induction false} SettlingEnds(s: State, run: seq<Event>)
    requires Possible(s, run) && AllSettle(run)
    ensures |run| + Work(Run(s, run)) <= Work(s)
    decreases |run|
  {
    if run != [] {
      SettleStep(s, run[0]);
      SettlingEnds(Apply(s, run[0]), run[1..]);
    }
  }

  /** A sleeper next to an idle object is never the end of it: some notification or woken thread can still step. */
  lemma Progress(s: State) returns (e: Event)
    requires Inv(s) && Sleepers(s) != {} && s.store.objects != []
    ensures Settles(e) && Enabled(s, e)
  {
    e := SomeSettles(s);
  }

  /** At rest, a thread sleeps only if every object of a full pool is borrowed. */
  lemma AtRest(s: State)
    requires Inv(s) && Work(s) == 0 && Sleepers(s) != {}
    ensures s.store.objects == [] && s.store.borrowedSize == s.store.maxSize > 0
  {
  }

  /** From every reachable state, settling leads to rest within Work(s) steps, and there nobody sleeps beside an idle
      object. */
  lemma {:induction false} Settle(s: State) returns (run: seq<Event>)
    requires Inv(s)
    ensures Possible(s, run) && AllSettle(run) && |run| <= Work(s)
    ensures Inv(Run(s, run)) && Work(Run(s, run)) == 0
    ensures Sleepers(Run(s, run)) != {} ==> Run(s, run).store.objects == []
    decreases Work(s)
  {
    if Work(s) == 0 {
      run := [];
    } else {
      var e := SomeSettles(s);
      SettleStep(s, e);
      StepKeeps(s, e);
      hide Enabled, Apply, Inv, Work, Sleepers;
      var rest := Settle(Apply(s, e));
      run := [e] + rest;
      assert run[1..] == rest;
    }
  }
}
