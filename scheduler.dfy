/** The scheduling loop of lib/pedant/check.rb, `run_checks_in_dependency_order`:
    repeatedly run, in pending-list order, every pending check that is ready
    against the knowledge base, until none is pending, none is ready, or a
    finished check reports the halting status.

    The status the loop halts on is a parameter: the source compares with
    the symbol `:fatal` (Status.Fatal), which no verdict setter produces,
    while `fatal` leaves `:died` (Status.Died) behind. */
module Scheduler {
  import opened CheckEngine

  /** A finished check instance, as yielded to the caller. */
  datatype Finished = Finished(cls: CheckClass, result: Status)

  /** Where (a stretch of) scheduling ends: the instances finished, in yield
      order; the checks still pending; the knowledge base; the fatal flag. */
  datatype Round = Round(finished: seq<Finished>, pending: seq<CheckClass>, kb: set<Key>, halted: bool)

  /** `r`, preceded by the instances `done`. */
  function After(done: seq<Finished>, r: Round): Round
  {
    r.(finished := done + r.finished)
  }

  /** The pending checks that are ready against `kb`, in order. */
  function SelectReady(kb: set<Key>, checks: seq<CheckClass>): (r: seq<CheckClass>)
    ensures forall c :: c in r <==> c in checks && Ready(kb, c)
  {
    if checks == [] then []
    else
      assert forall c :: c in checks <==> c == checks[0] || c in checks[1..];
      (if Ready(kb, checks[0]) then [checks[0]] else []) + SelectReady(kb, checks[1..])
  }

  /** The checks that are not ready, in order. */
  function SelectNotReady(kb: set<Key>, checks: seq<CheckClass>): seq<CheckClass>
  {
    if checks == [] then []
    else (if Ready(kb, checks[0]) then [] else [checks[0]]) + SelectNotReady(kb, checks[1..])
  }

  /** The checks not among `gone`, in order. */
  function Without(checks: seq<CheckClass>, gone: seq<CheckClass>): seq<CheckClass>
  {
    if checks == [] then []
    else (if checks[0] in gone then [] else [checks[0]]) + Without(checks[1..], gone)
  }

  /** `checks.delete(cls)`: removes every copy of `cls`. */
  function Delete(checks: seq<CheckClass>, cls: CheckClass): (r: seq<CheckClass>)
    ensures forall c :: c in r <==> c in checks && c != cls
    ensures |r| <= |checks|
    ensures cls in checks ==> |r| < |checks|
  {
    if checks == [] then []
    else
      assert forall c :: c in checks <==> c == checks[0] || c in checks[1..];
      (if checks[0] == cls then [] else [checks[0]]) + Delete(checks[1..], cls)
  }

  /** Selection keeps the pending list's order and its duplicates: the
      ready checks of a concatenation are those of each part, and a single
      check is kept exactly when it is ready. */
  lemma {:induction false} SelectReadyAppend(kb: set<Key>, a: seq<CheckClass>, b: seq<CheckClass>)
    ensures SelectReady(kb, a + b) == SelectReady(kb, a) + SelectReady(kb, b)
    ensures forall c :: SelectReady(kb, [c]) == if Ready(kb, c) then [c] else []
  {
    if a != [] {
      assert (a + b)[0] == a[0] && (a + b)[1..] == a[1..] + b;
      SelectReadyAppend(kb, a[1..], b);
    } else {
      assert a + b == b;
    }
  }

  /** Deleting keeps the other checks in order, each as often as before:
      deleting from a concatenation deletes from each part, and a single
      check is dropped exactly when it is the one deleted. */
  lemma {:induction false} DeleteAppend(a: seq<CheckClass>, b: seq<CheckClass>, cls: CheckClass)
    ensures Delete(a + b, cls) == Delete(a, cls) + Delete(b, cls)
    ensures forall c :: Delete([c], cls) == if c == cls then [] else [c]
  {
    if a != [] {
      assert (a + b)[0] == a[0] && (a + b)[1..] == a[1..] + b;
      DeleteAppend(a[1..], b, cls);
    } else {
      assert a + b == b;
    }
  }

  function Classes(fs: seq<Finished>): (r: seq<CheckClass>)
    ensures |r| == |fs|
    ensures forall i :: 0 <= i < |fs| ==> r[i] == fs[i].cls
  {
    if fs == [] then [] else [fs[0].cls] + Classes(fs[1..])
  }

  /** The knowledge-base keys the runs of `fs` add. */
  function AddedBy(fs: seq<Finished>): set<Key>
  {
    if fs == [] then {} else AddedBy(fs[..|fs| - 1]) + fs[|fs| - 1].cls.run.adds
  }

  /** `ready.each do |cls| ... end`: instantiate, delete from the pending
      list, run, yield; stop the batch after a result equal to `haltOn`. */
  function RunBatch(kb: set<Key>, ready: seq<CheckClass>, pending: seq<CheckClass>, haltOn: Status): (r: Round)
    ensures |r.pending| <= |pending|
    ensures ready != [] && ready[0] in pending ==> |r.pending| < |pending|
    decreases |ready|
  {
    if ready == [] then Round([], pending, kb, false)
    else
      var cls := ready[0];
      var done := Finished(cls, cls.run.result);
      var rest := Delete(pending, cls);
      var kb' := kb + cls.run.adds;
      if cls.run.result == haltOn then Round([done], rest, kb', true)
      else After([done], RunBatch(kb', ready[1..], rest, haltOn))
  }

  /** The whole loop, as a function of the knowledge base and the pending list. */
  function Schedule(kb: set<Key>, pending: seq<CheckClass>, haltOn: Status): Round
    decreases |pending|
  {
    if pending == [] then Round([], [], kb, false)
    else
      var ready := SelectReady(kb, pending);
      if ready == [] then Round([], pending, kb, false)
      else
        var b := RunBatch(kb, ready, pending, haltOn);
        if b.halted then b else After(b.finished, Schedule(b.kb, b.pending, haltOn))
  }

  lemma AfterAfter(a: seq<Finished>, b: seq<Finished>, r: Round)
    ensures After(a, After(b, r)) == After(a + b, r)
  {
    assert a + (b + r.finished) == (a + b) + r.finished;
  }

  lemma AfterRound(a: seq<Finished>, b: seq<Finished>, pending: seq<CheckClass>, kb: set<Key>, halted: bool)
    ensures After(a, Round(b, pending, kb, halted)) == Round(a + b, pending, kb, halted)
  {
  }

  /** One step of a batch: the first ready check runs. */
  lemma RunBatchStep(kb: set<Key>, ready: seq<CheckClass>, pending: seq<CheckClass>, haltOn: Status)
    requires ready != []
    ensures var cls := ready[0];
      var done := Finished(cls, cls.run.result);
      RunBatch(kb, ready, pending, haltOn) ==
        if cls.run.result == haltOn then Round([done], Delete(pending, cls), kb + cls.run.adds, true)
        else After([done], RunBatch(kb + cls.run.adds, ready[1..], Delete(pending, cls), haltOn))
  {
  }

  /** One round of the loop: the ready checks run as a batch. */
  lemma ScheduleStep(kb: set<Key>, pending: seq<CheckClass>, haltOn: Status)
    requires pending != [] && SelectReady(kb, pending) != []
    ensures var b := RunBatch(kb, SelectReady(kb, pending), pending, haltOn);
      Schedule(kb, pending, haltOn) ==
        if b.halted then b else After(b.finished, Schedule(b.kb, b.pending, haltOn))
  {
  }

  /** The step of a batch at position `i` of the ready list. */
  lemma RunBatchAt(kb: set<Key>, ready: seq<CheckClass>, i: nat, pending: seq<CheckClass>, haltOn: Status)
    requires i < |ready|
    ensures var cls := ready[i];
      var done := Finished(cls, cls.run.result);
      RunBatch(kb, ready[i..], pending, haltOn) ==
        if cls.run.result == haltOn then Round([done], Delete(pending, cls), kb + cls.run.adds, true)
        else After([done], RunBatch(kb + cls.run.adds, ready[i + 1..], Delete(pending, cls), haltOn))
  {
    RunBatchStep(kb, ready[i..], pending, haltOn);
    assert ready[i..][0] == ready[i] && ready[i..][1..] == ready[i + 1..];
  }

  /** The `ready.each` block of `run_checks_in_dependency_order`: for each
      ready check in turn, create the instance, delete its class from the
      pending list, run it and yield it; a result equal to `haltOn` sets the
      fatal flag and ends the batch. */
  method RunReady(kb0: set<Key>, ready: seq<CheckClass>, checks0: seq<CheckClass>, haltOn: Status)
    returns (done: seq<Finished>, checks: seq<CheckClass>, kb: set<Key>, fatal: bool)
    ensures RunBatch(kb0, ready, checks0, haltOn) == Round(done, checks, kb, fatal)
  {
    checks := checks0;
    kb := kb0;
    done := [];
    fatal := false;
    var i := 0;
    while i < |ready|
      invariant 0 <= i <= |ready|
      invariant RunBatch(kb0, ready, checks0, haltOn) == After(done, RunBatch(kb, ready[i..], checks, haltOn))
    {
      var cls := ready[i];
      RunBatchAt(kb, ready, i, checks, haltOn);
      checks := Delete(checks, cls);
      kb := kb + cls.run.adds;
      var result := cls.run.result;
      AfterAfter(done, [Finished(cls, result)], RunBatch(kb, ready[i + 1..], checks, haltOn));
      done := done + [Finished(cls, result)];
      if result == haltOn {
        AfterRound(done[..|done| - 1], [Finished(cls, result)], checks, kb, true);
        assert done[..|done| - 1] + [Finished(cls, result)] == done;
        fatal := true;
        return;
      }
      i := i + 1;
    }
    assert ready[i..] == [];
    assert done + [] == done;
  }

  /** `run_checks_in_dependency_order(kb, checks)`: returns the finished
      instances in the order they are yielded, the checks left pending and
      the knowledge base as the runs left it. */
  method RunChecksInDependencyOrder(kb0: set<Key>, checks0: seq<CheckClass>, haltOn: Status)
    returns (finished: seq<Finished>, remaining: seq<CheckClass>, kb: set<Key>)
    ensures var s := Schedule(kb0, checks0, haltOn);
      finished == s.finished && remaining == s.pending && kb == s.kb
  {
    var checks := checks0;
    kb := kb0;
    finished := [];
    var fatal := false;
    while checks != [] && !fatal
      invariant !fatal ==> After(finished, Schedule(kb, checks, haltOn)) == Schedule(kb0, checks0, haltOn)
      invariant fatal ==> Round(finished, checks, kb, true) == Schedule(kb0, checks0, haltOn)
      decreases |checks|
    {
      var ready := SelectReady(kb, checks);
      if ready == [] {
        break;
      }
      ScheduleStep(kb, checks, haltOn);
      assert ready[0] in checks;
      var done, checks', kb' := [], [], {};
      done, checks', kb', fatal := RunReady(kb, ready, checks, haltOn);
      if fatal {
        AfterRound(finished, done, checks', kb', true);
      } else {
        AfterAfter(finished, done, Schedule(kb', checks', haltOn));
      }
      finished, checks, kb := finished + done, checks', kb';
    }
    remaining := checks;
  }

  // ---------------------------------------------------------------------
  // What the loop guarantees

  lemma {:induction false} AddedByAppend(a: seq<Finished>, b: seq<Finished>)
    ensures AddedBy(a + b) == AddedBy(a) + AddedBy(b)
    decreases |b|
  {
    if b == [] {
      assert a + b == a;
    } else {
      var ab := a + b;
      assert ab[..|ab| - 1] == a + b[..|b| - 1];
      AddedByAppend(a, b[..|b| - 1]);
    }
  }

  lemma {:induction false} WithoutNothing(checks: seq<CheckClass>)
    ensures Without(checks, []) == checks
  {
    if checks != [] {
      WithoutNothing(checks[1..]);
      assert [checks[0]] + checks[1..] == checks;
    }
  }

  /** A batch runs its ready checks in order, each instance carrying its own
      run's verdict, and stops right after the first whose result is `haltOn`. */
  lemma {:induction false} RunBatchRunsInOrder(kb: set<Key>, ready: seq<CheckClass>, pending: seq<CheckClass>, haltOn: Status)
    ensures var r := RunBatch(kb, ready, pending, haltOn);
      |r.finished| <= |ready| &&
      (ready != [] ==> |r.finished| >= 1) &&
      (forall i :: 0 <= i < |r.finished| ==> r.finished[i] == Finished(ready[i], ready[i].run.result)) &&
      (!r.halted ==> |r.finished| == |ready|)
    decreases |ready|
  {
    if ready != [] {
      RunBatchStep(kb, ready, pending, haltOn);
      var cls := ready[0];
      if cls.run.result != haltOn {
        var kb' := kb + cls.run.adds;
        var rest := Delete(pending, cls);
        RunBatchRunsInOrder(kb', ready[1..], rest, haltOn);
        var t := RunBatch(kb', ready[1..], rest, haltOn);
        var r := RunBatch(kb, ready, pending, haltOn);
        assert r.finished == [Finished(cls, cls.run.result)] + t.finished;
        forall i | 0 <= i < |r.finished| ensures r.finished[i] == Finished(ready[i], ready[i].run.result) {
          if i > 0 { assert r.finished[i] == t.finished[i - 1]; }
        }
      }
    }
  }

  /** A batch stops right after the first instance whose result is `haltOn`,
      and halts exactly then. */
  lemma {:induction false} RunBatchStopsAt(kb: set<Key>, ready: seq<CheckClass>, pending: seq<CheckClass>, haltOn: Status)
    ensures var b := RunBatch(kb, ready, pending, haltOn);
      StopsAt(b.finished, haltOn, b.halted)
    decreases |ready|
  {
    if ready != [] {
      RunBatchStep(kb, ready, pending, haltOn);
      var cls := ready[0];
      var done := Finished(cls, cls.run.result);
      if cls.run.result != haltOn {
        var kb' := kb + cls.run.adds;
        var rest := Delete(pending, cls);
        RunBatchStopsAt(kb', ready[1..], rest, haltOn);
        var t := RunBatch(kb', ready[1..], rest, haltOn);
        StopsAtAppend([done], t.finished, haltOn, t.halted);
      }
    }
  }

  /** The knowledge base after a batch gains exactly the keys its runs add. */
  lemma {:induction false} RunBatchAddsKeys(kb: set<Key>, ready: seq<CheckClass>, pending: seq<CheckClass>, haltOn: Status)
    ensures var r := RunBatch(kb, ready, pending, haltOn);
      r.kb == kb + AddedBy(r.finished)
    decreases |ready|
  {
    if ready != [] {
      RunBatchStep(kb, ready, pending, haltOn);
      var cls := ready[0];
      var done := Finished(cls, cls.run.result);
      assert AddedBy([done]) == cls.run.adds by {
        assert [done][..0] == [];
      }
      if cls.run.result != haltOn {
        var kb' := kb + cls.run.adds;
        var rest := Delete(pending, cls);
        RunBatchAddsKeys(kb', ready[1..], rest, haltOn);
        var t := RunBatch(kb', ready[1..], rest, haltOn);
        AddedByAppend([done], t.finished);
      }
    }
  }

  lemma {:induction false} WithoutAfterDelete(checks: seq<CheckClass>, cls: CheckClass, gone: seq<CheckClass>)
    ensures Without(Delete(checks, cls), gone) == Without(checks, [cls] + gone)
  {
    if checks != [] {
      WithoutAfterDelete(checks[1..], cls, gone);
      assert checks[0] in [cls] + gone <==> checks[0] == cls || checks[0] in gone;
      var d := Delete(checks[1..], cls);
      if checks[0] != cls {
        assert Delete(checks, cls) == [checks[0]] + d;
        assert ([checks[0]] + d)[0] == checks[0] && ([checks[0]] + d)[1..] == d;
      } else {
        assert Delete(checks, cls) == d;
        assert Without(checks, [cls] + gone) == Without(checks[1..], [cls] + gone);
      }
    }
  }

  /** A batch deletes from the pending list exactly the checks it ran. */
  lemma {:induction false} RunBatchPending(kb: set<Key>, ready: seq<CheckClass>, pending: seq<CheckClass>, haltOn: Status)
    ensures var r := RunBatch(kb, ready, pending, haltOn);
      r.pending == Without(pending, Classes(r.finished))
    decreases |ready|
  {
    var r := RunBatch(kb, ready, pending, haltOn);
    if ready == [] {
      WithoutNothing(pending);
    } else {
      RunBatchStep(kb, ready, pending, haltOn);
      var cls := ready[0];
      var done := Finished(cls, cls.run.result);
      var rest := Delete(pending, cls);
      if cls.run.result == haltOn {
        assert Classes([done]) == [cls];
        WithoutAfterDelete(pending, cls, []);
        WithoutNothing(rest);
        assert [cls] + [] == [cls];
      } else {
        var kb' := kb + cls.run.adds;
        RunBatchPending(kb', ready[1..], rest, haltOn);
        var t := RunBatch(kb', ready[1..], rest, haltOn);
        WithoutAfterDelete(pending, cls, Classes(t.finished));
        assert r.finished == [done] + t.finished;
        assert Classes(r.finished) == [cls] + Classes(t.finished);
      }
    }
  }

  lemma {:induction false} ReadyMonotone(kb: set<Key>, kb': set<Key>, cls: CheckClass)
    requires kb <= kb' && Ready(kb, cls)
    ensures Ready(kb', cls)
  {
    ReadyIffRequiresPresent(kb, cls);
    ReadyIffRequiresPresent(kb', cls);
  }

  lemma {:induction false} AddedByPrefix(fs: seq<Finished>, i: nat, j: nat)
    requires i <= j <= |fs|
    ensures AddedBy(fs[..i]) <= AddedBy(fs[..j])
  {
    assert fs[..j] == fs[..i] + fs[i..j];
    AddedByAppend(fs[..i], fs[i..j]);
  }

  /** The knowledge base the loop leaves is the initial one plus the keys
      the finished runs added. */
  lemma {:induction false} ScheduleAddsKeys(kb: set<Key>, pending: seq<CheckClass>, haltOn: Status)
    ensures var r := Schedule(kb, pending, haltOn);
      r.kb == kb + AddedBy(r.finished)
    decreases |pending|
  {
    if pending != [] && SelectReady(kb, pending) != [] {
      ScheduleStep(kb, pending, haltOn);
      var ready := SelectReady(kb, pending);
      RunBatchAddsKeys(kb, ready, pending, haltOn);
      var b := RunBatch(kb, ready, pending, haltOn);
      if !b.halted {
        RunBatchRunsInOrder(kb, ready, pending, haltOn);
        assert ready[0] in pending;
        ScheduleAddsKeys(b.kb, b.pending, haltOn);
        var t := Schedule(b.kb, b.pending, haltOn);
        AddedByAppend(b.finished, t.finished);
      }
    }
  }

  /** The instances `fs` ran, in this order, from a knowledge base `kb`:
      each came from `pending`, carries its own run's verdict, and was ready
      against `kb` plus what the runs before it added. */
  predicate RanReady(kb: set<Key>, pending: seq<CheckClass>, fs: seq<Finished>)
  {
    forall i :: 0 <= i < |fs| ==>
      fs[i].cls in pending &&
      fs[i].result == fs[i].cls.run.result &&
      Ready(kb + AddedBy(fs[..i]), fs[i].cls)
  }

  lemma {:induction false} RanReadyBatch(kb: set<Key>, pending: seq<CheckClass>, ready: seq<CheckClass>, fs: seq<Finished>)
    requires |fs| <= |ready|
    requires forall i :: 0 <= i < |fs| ==> fs[i] == Finished(ready[i], ready[i].run.result)
    requires forall c :: c in ready ==> c in pending && Ready(kb, c)
    ensures RanReady(kb, pending, fs)
  {
    forall i | 0 <= i < |fs| ensures Ready(kb + AddedBy(fs[..i]), fs[i].cls) {
      assert fs[i].cls == ready[i] && ready[i] in ready;
      ReadyMonotone(kb, kb + AddedBy(fs[..i]), fs[i].cls);
    }
  }

  lemma {:induction false} RanReadyAppend(kb: set<Key>, pending: seq<CheckClass>, fs: seq<Finished>, pending': seq<CheckClass>, gs: seq<Finished>)
    requires RanReady(kb, pending, fs)
    requires RanReady(kb + AddedBy(fs), pending', gs)
    requires forall c :: c in pending' ==> c in pending
    ensures RanReady(kb, pending, fs + gs)
  {
    var all := fs + gs;
    forall i | 0 <= i < |all|
      ensures all[i].cls in pending
      ensures all[i].result == all[i].cls.run.result
      ensures Ready(kb + AddedBy(all[..i]), all[i].cls)
    {
      if i < |fs| {
        assert all[i] == fs[i] && all[..i] == fs[..i];
      } else {
        var j := i - |fs|;
        assert all[i] == gs[j];
        assert all[..i] == fs + gs[..j];
        AddedByAppend(fs, gs[..j]);
        assert kb + AddedBy(all[..i]) == kb + AddedBy(fs) + AddedBy(gs[..j]);
      }
    }
  }

  /** A check runs only once every key it requires is in the knowledge base:
      the initial one plus what earlier runs added. Every check that runs
      came from the pending list, and each instance carries its own run's
      verdict. */
  lemma {:induction false} ScheduleRunsOnlyReadyChecks(kb: set<Key>, pending: seq<CheckClass>, haltOn: Status)
    ensures RanReady(kb, pending, Schedule(kb, pending, haltOn).finished)
    decreases |pending|
  {
    if pending != [] && SelectReady(kb, pending) != [] {
      ScheduleStep(kb, pending, haltOn);
      var ready := SelectReady(kb, pending);
      RunBatchRunsInOrder(kb, ready, pending, haltOn);
      var b := RunBatch(kb, ready, pending, haltOn);
      RanReadyBatch(kb, pending, ready, b.finished);
      if !b.halted {
        assert ready[0] in pending;
        RunBatchAddsKeys(kb, ready, pending, haltOn);
        RunBatchPending(kb, ready, pending, haltOn);
        forall c | c in b.pending ensures c in pending {
          WithoutMember(pending, Classes(b.finished), c);
        }
        ScheduleRunsOnlyReadyChecks(b.kb, b.pending, haltOn);
        RanReadyAppend(kb, pending, b.finished, b.pending, Schedule(b.kb, b.pending, haltOn).finished);
      }
    } else {
      assert Schedule(kb, pending, haltOn).finished == [];
    }
  }

  lemma {:induction false} WithoutMember(checks: seq<CheckClass>, gone: seq<CheckClass>, c: CheckClass)
    ensures c in Without(checks, gone) <==> c in checks && c !in gone
  {
    if checks != [] {
      WithoutMember(checks[1..], gone, c);
      assert c in checks <==> c == checks[0] || c in checks[1..];
    }
  }

  lemma {:induction false} ClassesAppend(a: seq<Finished>, b: seq<Finished>)
    ensures Classes(a + b) == Classes(a) + Classes(b)
  {
    assert |Classes(a + b)| == |Classes(a) + Classes(b)|;
    forall i | 0 <= i < |a + b| ensures Classes(a + b)[i] == (Classes(a) + Classes(b))[i] {
      if i < |a| {
        assert (a + b)[i] == a[i];
      } else {
        assert (a + b)[i] == b[i - |a|];
      }
    }
  }

  /** Unless a check halted it, the loop stops only when no pending check is
      ready: those checks are silently never run. A check that ran is no
      longer pending, and every pending check either ran or is still pending. */
  lemma {:induction false} ScheduleStopsAtDeadlock(kb: set<Key>, pending: seq<CheckClass>, haltOn: Status)
    ensures var r := Schedule(kb, pending, haltOn);
      (!r.halted ==> forall c :: c in r.pending ==> !Ready(r.kb, c)) &&
      (forall c :: c in r.pending ==> c in pending) &&
      (forall c :: c in pending ==> (c in r.pending <==> c !in Classes(r.finished)))
    decreases |pending|
  {
    var r := Schedule(kb, pending, haltOn);
    if pending != [] && SelectReady(kb, pending) != [] {
      ScheduleStep(kb, pending, haltOn);
      var ready := SelectReady(kb, pending);
      RunBatchPending(kb, ready, pending, haltOn);
      var b := RunBatch(kb, ready, pending, haltOn);
      forall c ensures c in b.pending <==> c in pending && c !in Classes(b.finished) {
        WithoutMember(pending, Classes(b.finished), c);
      }
      if !b.halted {
        RunBatchRunsInOrder(kb, ready, pending, haltOn);
        assert ready[0] in pending;
        ScheduleStopsAtDeadlock(b.kb, b.pending, haltOn);
        var t := Schedule(b.kb, b.pending, haltOn);
        assert r.finished == b.finished + t.finished;
        ClassesAppend(b.finished, t.finished);
        forall c | c in pending ensures c in r.pending <==> c !in Classes(r.finished) {
          assert c in Classes(r.finished) <==> c in Classes(b.finished) || c in Classes(t.finished);
        }
      }
    }
  }

  /** In `fs`, only the last instance may have the status `haltOn`, and it
      has it exactly when `halted` is set. */
  predicate StopsAt(fs: seq<Finished>, haltOn: Status, halted: bool)
  {
    (forall i :: 0 <= i < |fs| - 1 ==> fs[i].result != haltOn) &&
    (halted <==> |fs| > 0 && fs[|fs| - 1].result == haltOn)
  }

  lemma {:induction false} StopsAtAppend(fs: seq<Finished>, gs: seq<Finished>, haltOn: Status, halted: bool)
    requires StopsAt(fs, haltOn, false) && StopsAt(gs, haltOn, halted)
    ensures StopsAt(fs + gs, haltOn, halted)
  {
    var all := fs + gs;
    forall i | 0 <= i < |all| - 1 ensures all[i].result != haltOn {
      if i < |fs| {
        assert all[i] == fs[i];
      } else {
        assert all[i] == gs[i - |fs|];
      }
    }
    if gs == [] {
      assert all == fs;
    } else {
      assert all[|all| - 1] == gs[|gs| - 1];
    }
  }

  /** No instance finishes after one whose result is the halting status, and
      the loop halts exactly when the last finished instance has that status. */
  lemma {:induction false} ScheduleHaltsAtHaltingStatus(kb: set<Key>, pending: seq<CheckClass>, haltOn: Status)
    ensures var r := Schedule(kb, pending, haltOn);
      StopsAt(r.finished, haltOn, r.halted)
    decreases |pending|
  {
    if pending != [] && SelectReady(kb, pending) != [] {
      ScheduleStep(kb, pending, haltOn);
      var ready := SelectReady(kb, pending);
      RunBatchStopsAt(kb, ready, pending, haltOn);
      var b := RunBatch(kb, ready, pending, haltOn);
      if !b.halted {
        assert ready[0] in pending;
        ScheduleHaltsAtHaltingStatus(b.kb, b.pending, haltOn);
        var t := Schedule(b.kb, b.pending, haltOn);
        StopsAtAppend(b.finished, t.finished, haltOn, t.halted);
      }
    } else {
      assert Schedule(kb, pending, haltOn).finished == [];
    }
  }

  lemma {:induction false} WithoutReady(kb: set<Key>, checks: seq<CheckClass>, gone: seq<CheckClass>)
    requires forall c :: c in checks ==> (c in gone <==> Ready(kb, c))
    ensures Without(checks, gone) == SelectNotReady(kb, checks)
  {
    if checks != [] {
      WithoutReady(kb, checks[1..], gone);
    }
  }

  lemma {:induction false} AddedByEmpty(fs: seq<Finished>)
    requires forall i :: 0 <= i < |fs| ==> fs[i].cls.run.adds == {}
    ensures AddedBy(fs) == {}
    decreases |fs|
  {
    if fs != [] {
      AddedByEmpty(fs[..|fs| - 1]);
    }
  }

  /** A batch in which no ready check halts runs them all. */
  lemma {:induction false} RunBatchNoHalt(kb: set<Key>, ready: seq<CheckClass>, pending: seq<CheckClass>, haltOn: Status)
    requires forall i :: 0 <= i < |ready| ==> ready[i].run.result != haltOn
    ensures var b := RunBatch(kb, ready, pending, haltOn);
      !b.halted && Classes(b.finished) == ready
  {
    RunBatchRunsInOrder(kb, ready, pending, haltOn);
    RunBatchStopsAt(kb, ready, pending, haltOn);
    var b := RunBatch(kb, ready, pending, haltOn);
    assert Classes(b.finished) == ready;
  }

  /** A batch whose runs add no keys leaves the knowledge base as it was. */
  lemma RunBatchNoAdds(kb: set<Key>, ready: seq<CheckClass>, pending: seq<CheckClass>, haltOn: Status)
    requires forall i :: 0 <= i < |ready| ==> ready[i].run.adds == {}
    ensures RunBatch(kb, ready, pending, haltOn).kb == kb
  {
    RunBatchRunsInOrder(kb, ready, pending, haltOn);
    RunBatchAddsKeys(kb, ready, pending, haltOn);
    AddedByEmpty(RunBatch(kb, ready, pending, haltOn).finished);
  }

  /** A batch of all the ready checks that does not halt leaves exactly the
      checks that were not ready. */
  lemma RunBatchLeavesNotReady(kb: set<Key>, pending: seq<CheckClass>, haltOn: Status)
    requires var b := RunBatch(kb, SelectReady(kb, pending), pending, haltOn);
      Classes(b.finished) == SelectReady(kb, pending)
    ensures RunBatch(kb, SelectReady(kb, pending), pending, haltOn).pending == SelectNotReady(kb, pending)
  {
    var ready := SelectReady(kb, pending);
    RunBatchPending(kb, ready, pending, haltOn);
    WithoutReady(kb, pending, ready);
  }

  /** A batch in which no run adds keys or halts runs every ready check. */
  lemma {:induction false} RunBatchRunsAll(kb: set<Key>, pending: seq<CheckClass>, haltOn: Status)
    requires forall c :: c in pending ==> c.run.adds == {} && c.run.result != haltOn
    ensures var b := RunBatch(kb, SelectReady(kb, pending), pending, haltOn);
      !b.halted &&
      Classes(b.finished) == SelectReady(kb, pending) &&
      b.pending == SelectNotReady(kb, pending) &&
      b.kb == kb
  {
    var ready := SelectReady(kb, pending);
    assert forall i :: 0 <= i < |ready| ==> ready[i] in pending;
    RunBatchNoHalt(kb, ready, pending, haltOn);
    RunBatchLeavesNotReady(kb, pending, haltOn);
    RunBatchNoAdds(kb, ready, pending, haltOn);
  }

  lemma {:induction false} NothingReadyAmongNotReady(kb: set<Key>, checks: seq<CheckClass>)
    ensures SelectReady(kb, SelectNotReady(kb, checks)) == []
  {
    if checks != [] {
      NothingReadyAmongNotReady(kb, checks[1..]);
      var rest := SelectNotReady(kb, checks[1..]);
      if !Ready(kb, checks[0]) {
        var s := [checks[0]] + rest;
        assert SelectNotReady(kb, checks) == s;
        assert s[0] == checks[0] && s[1..] == rest;
        assert SelectReady(kb, s) == [] + SelectReady(kb, rest);
      } else {
        assert SelectNotReady(kb, checks) == [] + rest;
        assert [] + rest == rest;
      }
    }
  }

  /** As the base engine uses it, no run adds keys; and with the verdict
      setters of the check class no result is ever Status.Fatal. Then one
      batch runs every ready check, in pending-list order, and the loop stops
      with exactly the checks that were not ready. */
  lemma {:induction false} ScheduleAsWrittenRunsEveryReadyCheck(kb: set<Key>, pending: seq<CheckClass>, haltOn: Status)
    requires forall c :: c in pending ==> c.run.adds == {} && c.run.result != haltOn
    ensures var r := Schedule(kb, pending, haltOn);
      !r.halted &&
      Classes(r.finished) == SelectReady(kb, pending) &&
      r.pending == SelectNotReady(kb, pending) &&
      r.kb == kb
  {
    var ready := SelectReady(kb, pending);
    if ready == [] {
      ScheduleNothingReady(kb, pending, haltOn);
      WithoutReady(kb, pending, []);
      WithoutNothing(pending);
    } else {
      ScheduleStep(kb, pending, haltOn);
      RunBatchRunsAll(kb, pending, haltOn);
      var b := RunBatch(kb, ready, pending, haltOn);
      NothingReadyAmongNotReady(kb, pending);
      ScheduleNothingReady(b.kb, b.pending, haltOn);
      AfterRound(b.finished, [], b.pending, kb, false);
      assert b.finished + [] == b.finished;
    }
  }

  /** With no pending check ready, the loop stops at once. */
  lemma ScheduleNothingReady(kb: set<Key>, pending: seq<CheckClass>, haltOn: Status)
    requires SelectReady(kb, pending) == []
    ensures Schedule(kb, pending, haltOn) == Round([], pending, kb, false)
  {
  }

  // ---------------------------------------------------------------------
  // The fatal short-circuit

  const CheckA := CheckClass("CheckA", [], [], Outcome(Died, {}))
  const CheckB := CheckClass("CheckB", [], [], Outcome(Pass, {}))

  /** As written, the loop compares with :fatal: a check whose run called
      `fatal` (verdict Died) does not stop the checks after it. */
  lemma {:induction false} DiedCheckDoesNotHaltAsWritten()
    ensures Classes(Schedule({}, [CheckA, CheckB], Fatal).finished) == [CheckA, CheckB]
  {
    var pending := [CheckA, CheckB];
    ReadyIffRequiresPresent({}, CheckA);
    ReadyIffRequiresPresent({}, CheckB);
    assert forall c :: c in pending ==> c.run.adds == {} && c.run.result != Fatal;
    ScheduleAsWrittenRunsEveryReadyCheck({}, pending, Fatal);
    SelectReadyAppend({}, [CheckA], [CheckB]);
    assert [CheckA] + [CheckB] == pending;
    assert SelectReady({}, pending) == pending;
  }

  /** Comparing with the verdict `fatal` leaves, nothing runs after a check
      that died, and the checks after it stay pending. */
  lemma {:induction false} DiedCheckHaltsWhenComparedWithDied(kb: set<Key>, pending: seq<CheckClass>)
    ensures var r := Schedule(kb, pending, Died);
      forall i :: 0 <= i < |r.finished| && r.finished[i].result == Died ==>
        i == |r.finished| - 1 && r.halted
  {
    ScheduleHaltsAtHaltingStatus(kb, pending, Died);
  }

  lemma {:induction false} DiedCheckHaltsExample()
    ensures var r := Schedule({}, [CheckA, CheckB], Died);
      Classes(r.finished) == [CheckA] && r.pending == [CheckB] && r.halted
  {
    var pending := [CheckA, CheckB];
    ReadyIffRequiresPresent({}, CheckA);
    ReadyIffRequiresPresent({}, CheckB);
    assert pending[1..] == [CheckB];
    assert SelectReady({}, [CheckB]) == [CheckB];
    assert SelectReady({}, pending) == pending;
    assert Delete(pending, CheckA) == [CheckB];
  }
}
