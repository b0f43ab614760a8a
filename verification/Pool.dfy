/** BorrowedObjectPool itself: each critical section of its methods is one step of the protocol. */
module Pool {
  import opened PoolProtocol

  datatype Option<T> = None | Some(value: T)

  /** How a woken thread goes on. */
  datatype Outcome = Borrowed(o: Object) | GaveUp | WaitsOn

  /** The step that the first critical section of borrowObject and tryBorrowObject takes. */
  function BorrowEvent(store: Store, t: Thread, made: Object, timed: bool): Event {
    if store.objects != [] then BorrowIdle(t)
    else if MayAllocate(store) then Allocate(t, made)
    else Sleep(t, timed)
  }

  class BorrowedObjectPool {
    const maxSize: nat
    var allocatedSize: nat
    var borrowedSize: int
    var objects: seq<Object>

    function Fields(): Store
      reads this
    {
      Store(maxSize, objects, allocatedSize, borrowedSize)
    }

    constructor (maxSize: nat)
      ensures Fields() == Init(maxSize).store && Inv(Init(maxSize))
    {
      this.maxSize, allocatedSize, borrowedSize, objects := maxSize, 0, 0, [];
    }

    method AllocateObjectForBorrowing(made: Object) returns (o: Object)
      modifies this
      ensures o == made && Fields() == Grown(old(Fields()))
    {
      allocatedSize := allocatedSize + 1;
      borrowedSize := borrowedSize + 1;
      o := made;
    }

    method BorrowFromObjects() returns (o: Object)
      requires objects != []
      modifies this
      ensures o == Last(old(Fields())) && Fields() == Popped(old(Fields()))
    {
      o := objects[|objects| - 1];
      objects := objects[..|objects| - 1];
      borrowedSize := borrowedSize + 1;
    }

    /** The part of borrowObject and tryBorrowObject before the wait; without an object the thread goes to sleep. The
        factory's object is made. */
    method BorrowOrWait(t: Thread, made: Object, timed: bool, ghost s: State) returns (o: Option<Object>)
      requires s.store == Fields() && t !in s.threads && made !in s.held
      modifies this
      ensures var e := BorrowEvent(s.store, t, made, timed);
        && Enabled(s, e) && Fields() == Apply(s, e).store
        && (if e.Sleep? then o == None else o.Some? && Apply(s, e).held == s.held + multiset{o.value})
      ensures o == None <==> s.store.objects == [] && maxSize > 0 && s.store.allocatedSize >= maxSize
      ensures s.store.objects == [] && o.Some? ==> o.value == made
    {
      if |objects| > 0 {
        var x := BorrowFromObjects();
        return Some(x);
      }
      var unlimited := maxSize == 0;
      if unlimited || allocatedSize < maxSize {
        var x := AllocateObjectForBorrowing(made);
        return Some(x);
      }
      o := None;
    }

    /** A woken thread with the mutex: it borrows, or gives up when its time is over, or goes back to sleep. */
    method AfterWakeUp(t: Thread, expired: bool, ghost s: State) returns (r: Outcome)
      requires s.store == Fields() && t in Wakened(s) && s.threads[t].expired == expired
      modifies this
      ensures Enabled(s, Recheck(t)) && Fields() == Apply(s, Recheck(t)).store
      ensures var s' := Apply(s, Recheck(t));
        match r
        case Borrowed(o) => t !in s'.threads && s.store.objects != [] && s'.held == s.held + multiset{o}
        case GaveUp => t !in s'.threads && s.store.objects == [] && expired && s'.held == s.held
        case WaitsOn => t in Sleepers(s') && s.store.objects == [] && !expired && s'.held == s.held
    {
      if |objects| > 0 {
        var x := BorrowFromObjects();
        return Borrowed(x);
      }
      r := if expired then GaveUp else WaitsOn;
    }

    method ReturnObject(t: Thread, o: Object, ghost s: State)
      requires s.store == Fields() && t !in s.threads && o in s.held && Inv(s)
      modifies this
      ensures Enabled(s, Return(t, o)) && Fields() == Apply(s, Return(t, o)).store
      ensures borrowedSize >= 0 && objects == old(objects) + [o] && t in Notifiers(Apply(s, Return(t, o)))
    {
      ReturnHasBorrowed(s, Return(t, o));
      objects := objects + [o];
      borrowedSize := borrowedSize - 1;
    }
  }
}
