/** What the steps of a run mean for one thread: who times out, who leaves with an object and who waits on. */
module PoolHistory {
  import opened PoolProtocol

  /** The thread's time ran out during the run, and it has not had the mutex since. */
  ghost predicate TimedOut(run: seq<Event>, t: Thread) {
    exists i :: 0 <= i < |run| && run[i] == Expire(t) && NoRecheck(run[i + 1..], t)
  }

  ghost predicate NoRecheck(run: seq<Event>, t: Thread) {
    forall e | e in run :: e != Recheck(t)
  }

  /** The thread's last wait was begun by tryBorrowObject, with a timeout. */
  ghost predicate WaitsTimed(run: seq<Event>, t: Thread) {
    exists i :: 0 <= i < |run| && run[i] == Sleep(t, true) && NoSleep(run[i + 1..], t)
  }

  ghost predicate NoSleep(run: seq<Event>, t: Thread) {
    forall e | e in run :: !(e.Sleep? && e.t == t)
  }

  // ----- One more step -----

  lemma TimedOutStep(run: seq<Event>, e: Event, t: Thread)
    ensures TimedOut(run + [e], t) <==> e == Expire(t) || (e != Recheck(t) && TimedOut(run, t))
  {
    var more := run + [e];
    if TimedOut(more, t) {
      var i :| 0 <= i < |more| && more[i] == Expire(t) && NoRecheck(more[i + 1..], t);
      if i < |run| {
        var rest, rest' := run[i + 1..], more[i + 1..];
        assert rest' == rest + [e];
        assert e in rest' && forall x | x in rest :: x in rest';
        assert run[i] == Expire(t) && NoRecheck(rest, t);
      } else {
        assert e == more[|run|];
      }
    }
    if e == Expire(t) {
      assert more[|run|] == Expire(t) && more[|run| + 1..] == [];
    } else if e != Recheck(t) && TimedOut(run, t) {
      var i :| 0 <= i < |run| && run[i] == Expire(t) && NoRecheck(run[i + 1..], t);
      assert more[i] == Expire(t) && more[i + 1..] == run[i + 1..] + [e];
    }
  }

  lemma WaitsTimedStep(run: seq<Event>, e: Event, t: Thread)
    ensures WaitsTimed(run + [e], t) <==> if e.Sleep? && e.t == t then e.timed else WaitsTimed(run, t)
  {
    var more := run + [e];
    if WaitsTimed(more, t) {
      var i :| 0 <= i < |more| && more[i] == Sleep(t, true) && NoSleep(more[i + 1..], t);
      if i < |run| {
        var rest, rest' := run[i + 1..], more[i + 1..];
        assert rest' == rest + [e];
        assert e in rest' && forall x | x in rest :: x in rest';
        assert run[i] == Sleep(t, true) && NoSleep(rest, t);
      } else {
        assert e == more[|run|];
      }
    }
    if e == Sleep(t, true) {
      assert more[|run|] == Sleep(t, true) && more[|run| + 1..] == [];
    } else if !(e.Sleep? && e.t == t) && WaitsTimed(run, t) {
      var i :| 0 <= i < |run| && run[i] == Sleep(t, true) && NoSleep(run[i + 1..], t);
      assert more[i] == Sleep(t, true) && more[i + 1..] == run[i + 1..] + [e];
    }
  }

  lemma {:induction false} RunStep(s: State, run: seq<Event>, e: Event)
    ensures Possible(s, run + [e]) <==> Possible(s, run) && Enabled(Run(s, run), e)
    ensures Possible(s, run + [e]) ==> Run(s, run + [e]) == Apply(Run(s, run), e)
    decreases |run|
  {
    hide Enabled, Apply;
    var more := run + [e];
    if run == [] {
      assert more[0] == e && more[1..] == [];
    } else {
      assert more[0] == run[0] && more[1..] == run[1..] + [e];
      if Enabled(s, run[0]) {
        RunStep(Apply(s, run[0]), run[1..], e);
      }
    }
  }

  // ----- The phase of a thread is its history -----

  ghost predicate Waits(s: State, t: Thread) {
    t in s.threads && !s.threads[t].Notifying?
  }

  ghost predicate Expired(s: State, t: Thread) {
    t in s.threads && s.threads[t].Woken? && s.threads[t].expired
  }

  /** A step of its own, as a thread sees it. */
  lemma OwnStep(s: State, e: Event)
    requires Enabled(s, e)
    ensures var s', t := Apply(s, e), e.t;
      && (Expired(s', t) <==> e.Expire?)
      && (e.Sleep? ==> Waits(s', t) && s'.threads[t] == Sleeping(e.timed))
      && (Waits(s', t) && !e.Sleep? ==> Waits(s, t) && s'.threads[t].timed == s.threads[t].timed)
      && (e.Expire? ==> Waits(s, t) && s.threads[t].timed)
      && (Expired(s, t) ==> e.Recheck?)
  {
  }

  /** A step of another thread, as a thread sees it. */
  lemma OtherStep(s: State, e: Event, t: Thread)
    requires Enabled(s, e) && e.t != t
    ensures var s' := Apply(s, e);
      && (Expired(s', t) <==> Expired(s, t))
      && (Waits(s', t) <==> Waits(s, t))
      && (Waits(s', t) ==> s'.threads[t].timed == s.threads[t].timed)
  {
    hide Sleepers, Wakened, Notifiers;
    if e.Notify? {
      ChosenSleeps(s, e.chosen);
    }
  }

  lemma ChosenSleeps(s: State, chosen: Thread)
    ensures chosen in Sleepers(s) <==> chosen in s.threads && s.threads[chosen].Sleeping?
  {
  }

  /** One step, as any thread sees it. */
  lemma PhaseStep(s: State, e: Event, t: Thread)
    requires Enabled(s, e)
    ensures var s' := Apply(s, e);
      && (Expired(s', t) <==> e == Expire(t) || (e != Recheck(t) && Expired(s, t)))
      && (e.Sleep? && e.t == t ==> Waits(s', t) && s'.threads[t] == Sleeping(e.timed))
      && (Waits(s', t) && !(e.Sleep? && e.t == t) ==> Waits(s, t) && s'.threads[t].timed == s.threads[t].timed)
      && (e == Expire(t) ==> Waits(s, t) && s.threads[t].timed)
  {
    hide Enabled, Apply, Expired;
    if e.t == t {
      OwnStep(s, e);
    } else {
      OtherStep(s, e, t);
    }
  }

  lemma {:induction false} PhaseIsHistory(maxSize: nat, run: seq<Event>, t: Thread)
    requires Possible(Init(maxSize), run)
    ensures var s := Run(Init(maxSize), run);
      && (Expired(s, t) <==> TimedOut(run, t))
      && (Waits(s, t) ==> (s.threads[t].timed <==> WaitsTimed(run, t)))
      && (TimedOut(run, t) ==> WaitsTimed(run, t))
    decreases |run|
  {
    hide Enabled, Apply, TimedOut, WaitsTimed;
    if run == [] {
      NothingYet(t);
    } else {
      var before, e := run[..|run| - 1], run[|run| - 1];
      assert run == before + [e];
      RunStep(Init(maxSize), before, e);
      PhaseIsHistory(maxSize, before, t);
      PhaseStep(Run(Init(maxSize), before), e, t);
      TimedOutStep(before, e, t);
      WaitsTimedStep(before, e, t);
    }
  }

  lemma NothingYet(t: Thread)
    ensures !TimedOut([], t) && !WaitsTimed([], t)
  {
  }

  // ----- Leaving -----

  /** In every run: a woken thread that gets the mutex leaves with the last idle object if there is one. Otherwise it
      leaves without one exactly if its time ran out, which only happens to a wait with a timeout, and waits on as
      before if not. */
  lemma WokenLeaves(maxSize: nat, run: seq<Event>, t: Thread)
    requires Possible(Init(maxSize), run + [Recheck(t)])
    ensures Possible(Init(maxSize), run)
    ensures var s, s' := Run(Init(maxSize), run), Run(Init(maxSize), run + [Recheck(t)]);
      var idle := s.store.objects;
      && (t !in s'.threads && s'.held != s.held <==> idle != [])
      && (idle != [] ==> s'.held == s.held + multiset{idle[|idle| - 1]} && s'.store.objects == idle[..|idle| - 1])
      && (t !in s'.threads && s'.held == s.held <==> idle == [] && TimedOut(run, t))
      && (t in s'.threads <==> idle == [] && !TimedOut(run, t))
      && (t in s'.threads ==> s'.held == s.held && s'.threads[t] == Sleeping(WaitsTimed(run, t)))
      && (TimedOut(run, t) ==> WaitsTimed(run, t))
  {
    hide TimedOut, WaitsTimed, Possible, Run;
    RunStep(Init(maxSize), run, Recheck(t));
    PhaseIsHistory(maxSize, run, t);
    RecheckStep(Run(Init(maxSize), run), t);
  }

  lemma RecheckStep(s: State, t: Thread)
    requires Enabled(s, Recheck(t))
    ensures Waits(s, t)
    ensures var s', idle := Apply(s, Recheck(t)), s.store.objects;
      && (idle != [] ==> t !in s'.threads && s'.held == s.held + multiset{idle[|idle| - 1]}
                         && s'.store.objects == idle[..|idle| - 1])
      && (idle == [] ==> s'.held == s.held && s'.store == s.store
                         && (if Expired(s, t) then t !in s'.threads
                             else t in s'.threads && s'.threads[t] == Sleeping(s.threads[t].timed)))
      && (s'.held == s.held <==> idle == [])
  {
    var s', idle := Apply(s, Recheck(t)), s.store.objects;
    if idle != [] {
      assert s'.held[idle[|idle| - 1]] == s.held[idle[|idle| - 1]] + 1;
    }
  }

  /** Once its time has run out, the next step of the thread is its last: whatever the others do in between, it stays
      ready for the mutex and then leaves, with an object exactly if one is idle. */
  lemma TimeoutEnds(maxSize: nat, before: seq<Event>, t: Thread, between: seq<Event>)
    requires Possible(Init(maxSize), before + [Expire(t)] + between) && NoRecheck(between, t)
    ensures var s := Run(Init(maxSize), before + [Expire(t)] + between);
      && Enabled(s, Recheck(t)) && t !in Apply(s, Recheck(t)).threads
      && (Apply(s, Recheck(t)).held == s.held <==> s.store.objects == [])
      && (s.store.objects == [] ==> Apply(s, Recheck(t)).store == s.store)
  {
    hide Enabled, Apply, Possible, Run;
    var run := before + [Expire(t)] + between;
    assert run[|before|] == Expire(t) && run[|before| + 1..] == between;
    assert TimedOut(run, t);
    PhaseIsHistory(maxSize, run, t);
    var s := Run(Init(maxSize), run);
    WokenMayRecheck(s, t);
    RecheckStep(s, t);
  }

  lemma WokenMayRecheck(s: State, t: Thread)
    requires Expired(s, t)
    ensures Enabled(s, Recheck(t))
  {
  }

  /** borrowObject always comes back with an object: a thread that waits without a timeout leaves only with one. */
  lemma UntimedBorrows(maxSize: nat, run: seq<Event>, t: Thread)
    requires Possible(Init(maxSize), run + [Recheck(t)]) && !WaitsTimed(run, t)
    ensures Possible(Init(maxSize), run)
    ensures var s, s' := Run(Init(maxSize), run), Run(Init(maxSize), run + [Recheck(t)]);
      t !in s'.threads ==> s.store.objects != [] && s'.held == s.held + multiset{Last(s.store)}
  {
    hide Possible, Run, TimedOut, WaitsTimed;
    WokenLeaves(maxSize, run, t);
  }
}
