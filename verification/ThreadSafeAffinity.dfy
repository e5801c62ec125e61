/** On which sequences observers are called: what the thread-safe observer list promises of it, and when that holds. */
module ThreadSafeAffinity {
  import opened Common
  import opened ThreadSafeList
  import opened ThreadSafeRuns
  import opened ThreadSafeDrain

  // ----- Observers of one sequence -----

  ghost predicate DeliveriesTraced(st: State)
  {
    forall o, n: Note, s :: Delivered(o, n, s) in st.log ==> Registered(n.list, o, s) in st.log
  }

  lemma StepKeepsDeliveriesTraced(st: State, step: Step)
    requires Inv(st) && DeliveriesTraced(st) && Enabled(st, step)
    ensures DeliveriesTraced(Apply(st, step))
  {
    var after := Apply(st, step);
    if step.Start? {
      TopIsChecked(st, step.t);
    }
    forall o, n: Note, s | Delivered(o, n, s) in after.log
      ensures Registered(n.list, o, s) in after.log
    {
      if Delivered(o, n, s) in st.log {
        assert Registered(n.list, o, s) in st.log;
      }
    }
  }

  lemma {:induction false} RunKeepsDeliveriesTraced(st: State, steps: seq<Step>)
    requires Inv(st) && DeliveriesTraced(st) && AllEnabled(st, steps)
    ensures DeliveriesTraced(After(st, steps))
    decreases |steps|
  {
    if steps == [] {
    } else {
      RunKeepsDeliveriesTraced(st, steps[..|steps| - 1]);
      StepKeepsDeliveriesTraced(After(st, steps[..|steps| - 1]), steps[|steps| - 1]);
    }
  }

  /** Every registration of the observer with the list was made from sequence s. */
  ghost predicate RegistersOnlyFrom(log: seq<Event>, l: ListId, o: Observer, s: Sequence)
  {
    forall s' :: Registered(l, o, s') in log ==> s' == s
  }

  /** In every run where an observer registers from one sequence only, each of its callbacks runs on that sequence. */
  lemma {:induction false} CallbacksRunOnTheRegistrationSequence(
    policy: ListId -> Policy, steps: seq<Step>, o: Observer, n: Note, s: Sequence, s': Sequence)
    requires AllEnabled(Initial(policy), steps)
    requires RegistersOnlyFrom(After(Initial(policy), steps).log, n.list, o, s)
    requires Delivered(o, n, s') in After(Initial(policy), steps).log
    ensures s' == s
  {
    RunKeepsDeliveriesTraced(Initial(policy), steps);
  }

  // ----- Observers that register again -----

  /** Every task of the given kind is on sequence s. */
  ghost predicate AllOn(tasks: seq<Task>, p: Task -> bool, s: Sequence)
  {
    forall id :: 0 <= id < |tasks| && p(tasks[id]) ==> tasks[id].sequence == s
  }

  /** From here on, until the observer registers again, all of its callbacks run on s. */
  ghost predicate CalledOnlyOn(st: State, l: ListId, o: Observer, s: Sequence)
    requires Inv(st)
  {
    forall steps, n: Note, s' ::
      AllEnabled(st, steps) && NeverAdds(steps, l, o) && n.list == l &&
        Happened(st, After(st, steps), Delivered(o, n, s')) ==>
        s' == s
  }

  /** The DCHECK in NotifyWrapper: a task finds its observer unregistered or registered for the sequence it runs on. */
  predicate PassesCheck(st: State, task: Task)
  {
    var key := (task.note.list, task.observer);
    key in st.registry ==> st.registry[key] == task.sequence
  }

  /** From here on, until the observer registers again, no task of it fails that check. */
  ghost predicate CheckNeverFails(st: State, l: ListId, o: Observer)
    requires Inv(st)
  {
    forall steps, t, id: nat ::
      AllEnabled(st, steps) && NeverAdds(steps, l, o) && Enabled(After(st, steps), Begin(t, id)) &&
      IsQueued(l, o)(After(st, steps).tasks[id]) ==>
        PassesCheck(After(st, steps), After(st, steps).tasks[id])
  }

  /** Tasks of the given kind are on s, and so is the registration if there is one. */
  ghost predicate Settled(st: State, l: ListId, o: Observer, p: Task -> bool, s: Sequence)
  {
    AllOn(st.tasks, p, s) && ((l, o) in st.registry ==> st.registry[(l, o)] == s)
  }

  /** No step but a registration of the observer itself breaks that. */
  lemma OtherStepsStaySettled(st: State, step: Step, l: ListId, o: Observer, p: Task -> bool, s: Sequence)
    requires Inv(st) && Enabled(st, step) && !Adds(step, l, o) && p in {IsQueued(l, o), IsPending(l, o)}
    requires Settled(st, l, o, p, s)
    ensures Settled(Next(st, step), l, o, p, s)
  {
    hide Inv, Uses, FreeFor, CanRun;
    var after := Next(st, step);
    if step.Start? {
      TopIsChecked(st, step.t);
    }
    forall id | 0 <= id < |after.tasks| && p(after.tasks[id])
      ensures after.tasks[id].sequence == s
    {
      if id < |st.tasks| {
        assert p(st.tasks[id]);
      }
    }
  }

  lemma {:induction false} RunStaysSettled(
    st: State, steps: seq<Step>, l: ListId, o: Observer, p: Task -> bool, s: Sequence)
    requires Inv(st) && AllEnabled(st, steps) && NeverAdds(steps, l, o) && p in {IsQueued(l, o), IsPending(l, o)}
    requires Settled(st, l, o, p, s)
    ensures Settled(After(st, steps), l, o, p, s)
    decreases |steps|
  {
    hide Inv, Enabled, Next, Settled, IsQueued, IsPending;
    if steps == [] {
    } else {
      var init := steps[..|steps| - 1];
      assert NeverAdds(init, l, o);
      RunStaysSettled(st, init, l, o, p, s);
      OtherStepsStaySettled(After(st, init), steps[|steps| - 1], l, o, p, s);
    }
  }

  lemma SettledStepCalls(st: State, step: Step, l: ListId, o: Observer, s: Sequence, n: Note, s': Sequence)
    requires Inv(st) && Enabled(st, step) && AllOn(st.tasks, IsPending(l, o), s)
    requires n.list == l && Happened(st, Next(st, step), Delivered(o, n, s'))
    ensures s' == s
  {
    var t := step.t;
    assert step == Start(t);
    TopIsChecked(st, t);
    var id := Top(StackOf(st, t)).id;
    assert IsPending(l, o)(st.tasks[id]);
  }

  lemma {:induction false} SettledRunCalls(
    st: State, steps: seq<Step>, l: ListId, o: Observer, s: Sequence, n: Note, s': Sequence)
    requires Inv(st) && AllEnabled(st, steps) && NeverAdds(steps, l, o)
    requires Settled(st, l, o, IsPending(l, o), s)
    requires n.list == l && Happened(st, After(st, steps), Delivered(o, n, s'))
    ensures s' == s
    decreases |steps|
  {
    hide Inv, Enabled, Next, IsPending;
    if steps == [] {
      assert false;
    } else {
      var init := steps[..|steps| - 1];
      var before := After(st, init);
      assert NeverAdds(init, l, o);
      RunExtendsLog(st, init);
      StepExtendsLog(before, steps[|steps| - 1]);
      if Happened(st, before, Delivered(o, n, s')) {
        SettledRunCalls(st, init, l, o, s, n, s');
      } else {
        RunStaysSettled(st, init, l, o, IsPending(l, o), s);
        SettledStepCalls(before, steps[|steps| - 1], l, o, s, n, s');
      }
    }
  }

  /** What is pending for a registered observer can be delivered, while the registration stays as it is. */
  lemma PendingCanBeDelivered(st: State, l: ListId, o: Observer, id: nat) returns (after: State)
    requires Inv(st) && (l, o) in st.registry && id < |st.tasks| && IsPending(l, o)(st.tasks[id])
    ensures Drains(st, after) && after.registry == st.registry
    ensures Happened(st, after, Delivered(o, st.tasks[id].note, st.tasks[id].sequence))
  {
    hide Inv, Drains;
    if st.tasks[id].phase == Queued {
      var ready, t := BringToHead(st, id);
      CarriedByDraining(st, ready);
      var begun := Next(ready, Begin(t, id));
      DrainsOne(ready, Begin(t, id));
      DrainsOn(st, ready, begun);
      CarriedByDraining(st, begun);
      after := DeliverChecked(begun, id);
      DrainsOn(st, begun, after);
      LastHappened(st, begun, after);
    } else {
      after := DeliverChecked(st, id);
      LastHappened(st, st, after);
    }
    CarriedByDraining(st, after);
  }

  lemma LastHappened(st: State, before: State, after: State)
    requires st.log <= before.log < after.log
    ensures Happened(st, after, after.log[|after.log| - 1])
  {
    assert after.log[|st.log|..][|after.log| - 1 - |st.log|] == after.log[|after.log| - 1];
  }

  lemma DeliverChecked(st: State, id: nat) returns (after: State)
    requires Inv(st) && id < |st.tasks| && st.tasks[id].phase.Checked?
    ensures Drains(st, after)
    ensures after.log == st.log + [Delivered(st.tasks[id].observer, st.tasks[id].note, st.tasks[id].sequence)]
  {
    hide Drains;
    var t := st.tasks[id].phase.thread;
    assert CheckedOnTop(st);
    after := Next(st, Start(t));
    DrainsOne(st, Start(t));
  }

  /** For a registered observer: callbacks stay on its sequence if and only if nothing is pending on another one. */
  lemma CalledOnlyOnIff(st: State, l: ListId, o: Observer, s: Sequence)
    requires Inv(st) && (l, o) in st.registry && st.registry[(l, o)] == s
    ensures CalledOnlyOn(st, l, o, s) <==> AllOn(st.tasks, IsPending(l, o), s)
  {
    hide Inv, Enabled, Next;
    if AllOn(st.tasks, IsPending(l, o), s) {
      forall steps, n: Note, s' |
        AllEnabled(st, steps) && NeverAdds(steps, l, o) && n.list == l &&
          Happened(st, After(st, steps), Delivered(o, n, s'))
        ensures s' == s
      {
        SettledRunCalls(st, steps, l, o, s, n, s');
      }
    } else {
      var id :| 0 <= id < |st.tasks| && IsPending(l, o)(st.tasks[id]) && st.tasks[id].sequence != s;
      var steps := MisdeliveryIsPossible(st, l, o, id);
    }
  }

  /** A pending task on another sequence than the one its observer is registered for can call it there. */
  lemma MisdeliveryIsPossible(st: State, l: ListId, o: Observer, id: nat) returns (steps: seq<Step>)
    requires Inv(st) && (l, o) in st.registry && id < |st.tasks| && IsPending(l, o)(st.tasks[id])
    requires st.tasks[id].sequence != st.registry[(l, o)]
    ensures AllEnabled(st, steps) && OnlyDrains(steps) && NeverAdds(steps, l, o)
    ensures After(st, steps).registry == st.registry
    ensures Happened(st, After(st, steps), Delivered(o, st.tasks[id].note, st.tasks[id].sequence))
  {
    hide Inv, Enabled, Next, IsPending;
    var after := PendingCanBeDelivered(st, l, o, id);
    steps :| OnlyDrains(steps) && AllEnabled(st, steps) && After(st, steps) == after;
  }

  /** For a registered observer: the check never fails if and only if nothing is queued on another sequence. */
  lemma CheckNeverFailsIff(st: State, l: ListId, o: Observer, s: Sequence)
    requires Inv(st) && (l, o) in st.registry && st.registry[(l, o)] == s
    ensures CheckNeverFails(st, l, o) <==> AllOn(st.tasks, IsQueued(l, o), s)
  {
    hide Inv, Next;
    if AllOn(st.tasks, IsQueued(l, o), s) {
      forall steps, t, id: nat |
        AllEnabled(st, steps) && NeverAdds(steps, l, o) && Enabled(After(st, steps), Begin(t, id)) &&
        IsQueued(l, o)(After(st, steps).tasks[id])
        ensures PassesCheck(After(st, steps), After(st, steps).tasks[id])
      {
        RunStaysSettled(st, steps, l, o, IsQueued(l, o), s);
      }
    } else {
      var id :| 0 <= id < |st.tasks| && IsQueued(l, o)(st.tasks[id]) && st.tasks[id].sequence != s;
      var ready, t := BringToHead(st, id);
      CarriedByDraining(st, ready);
      var steps :| OnlyDrains(steps) && AllEnabled(st, steps) && After(st, steps) == ready;
      assert NeverAdds(steps, l, o);
    }
  }

  /** So registering from s is safe exactly when no task of an earlier registration is pending on another sequence. */
  lemma RegisteringIsSafeIff(st: State, t: Thread, l: ListId, o: Observer, s: Sequence)
    requires Inv(st) && Enabled(st, Add(t, l, o)) && Top(StackOf(st, t)).on == Some(s)
    ensures CalledOnlyOn(Next(st, Add(t, l, o)), l, o, s) <==> AllOn(st.tasks, IsPending(l, o), s)
    ensures CheckNeverFails(Next(st, Add(t, l, o)), l, o) <==> AllOn(st.tasks, IsQueued(l, o), s)
  {
    hide CalledOnlyOn, CheckNeverFails;
    var after := Next(st, Add(t, l, o));
    assert after == AddStep(st, t, l, o);
    CalledOnlyOnIff(after, l, o, s);
    CheckNeverFailsIff(after, l, o, s);
    AddPostsOnItsSequence(st, t, l, o, s, IsPending(l, o));
    AddPostsOnItsSequence(st, t, l, o, s, IsQueued(l, o));
  }

  lemma AddPostsOnItsSequence(st: State, t: Thread, l: ListId, o: Observer, s: Sequence, p: Task -> bool)
    requires StackOf(st, t) != [] && Top(StackOf(st, t)).on == Some(s)
    ensures AllOn(AddStep(st, t, l, o).tasks, p, s) <==> AllOn(st.tasks, p, s)
  {
    var after := AddStep(st, t, l, o);
    forall id | 0 <= id < |st.tasks|
      ensures after.tasks[id] == st.tasks[id]
    {
    }
  }

  // ----- A run that ends in a wrong callback -----

  /** Observer 5 registers from sequence 1 and is notified; its task is queued there. */
  lemma PostedRun(policy: ListId -> Policy) returns (steps: seq<Step>, st: State)
    ensures AllEnabled(Initial(policy), steps) && After(Initial(policy), steps) == st
    ensures steps == [Enter(0, Some(1)), Add(0, 0, 5), Notify(0, 0, [5])]
    ensures st == State(policy, map[(0, 5) := 1], [Task(5, Note(0, 0), 1, Queued)], map[0 := [Code(Some(1))]], map[], 1,
                        [Registered(0, 5, 1)])
  {
    hide Inv;
    var init := Initial(policy);
    var entered := init.(stacks := map[0 := [Code(Some(1))]]);
    var added := entered.(registry := map[(0, 5) := 1], log := [Registered(0, 5, 1)]);
    st := added.(tasks := [Task(5, Note(0, 0), 1, Queued)], notes := 1);
    assert AllEnabled(init, []) && After(init, []) == init;
    assert StackOf(init, 0) + [Code(Some(1))] == [Code(Some(1))];
    Extend(init, [], Enter(0, Some(1)), init, entered);
    Extend(init, [Enter(0, Some(1))], Add(0, 0, 5), entered, added);
    steps := [Enter(0, Some(1)), Add(0, 0, 5), Notify(0, 0, [5])];
    assert Posted(added.registry, Note(0, 0), [5]) == st.tasks;
    Extend(init, [Enter(0, Some(1)), Add(0, 0, 5)], Notify(0, 0, [5]), added, st);
  }

  /** It then leaves, and registers again from sequence 2. */
  lemma MovedRun(policy: ListId -> Policy) returns (steps: seq<Step>, st: State)
    ensures AllEnabled(Initial(policy), steps) && After(Initial(policy), steps) == st
    ensures steps == [Enter(0, Some(1)), Add(0, 0, 5), Notify(0, 0, [5]), Leave(0),
                      Enter(1, Some(2)), Remove(1, 0, 5), Add(1, 0, 5)]
    ensures st == State(policy, map[(0, 5) := 2], [Task(5, Note(0, 0), 1, Queued)], map[0 := [], 1 := [Code(Some(2))]],
                        map[], 1, [Registered(0, 5, 1), Unregistered(0, 5, Some(2)), Registered(0, 5, 2)])
  {
    hide Inv;
    var init := Initial(policy);
    var three, posted := PostedRun(policy);
    var left := posted.(stacks := map[0 := []]);
    var entered := left.(stacks := map[0 := [], 1 := [Code(Some(2))]]);
    var removed := entered.(registry := map[], log := [Registered(0, 5, 1), Unregistered(0, 5, Some(2))]);
    st := removed.(registry := map[(0, 5) := 2], log := removed.log + [Registered(0, 5, 2)]);
    Extend(init, three, Leave(0), posted, left);
    assert StackOf(left, 1) + [Code(Some(2))] == [Code(Some(2))];
    Extend(init, three + [Leave(0)], Enter(1, Some(2)), left, entered);
    assert entered.registry - {(0, 5)} == map[];
    Extend(init, three + [Leave(0)] + [Enter(1, Some(2))], Remove(1, 0, 5), entered, removed);
    Extend(init, three + [Leave(0)] + [Enter(1, Some(2))] + [Remove(1, 0, 5)], Add(1, 0, 5), removed, st);
    steps := three + [Leave(0)] + [Enter(1, Some(2))] + [Remove(1, 0, 5)] + [Add(1, 0, 5)];
  }

  /** And is called on sequence 1 all the same. */
  lemma MisdeliveryRun(policy: ListId -> Policy) returns (steps: seq<Step>)
    ensures steps == [Enter(0, Some(1)), Add(0, 0, 5), Notify(0, 0, [5]), Leave(0),
                      Enter(1, Some(2)), Remove(1, 0, 5), Add(1, 0, 5), Begin(0, 0), Start(0)]
    ensures AllEnabled(Initial(policy), steps)
    ensures var after := After(Initial(policy), steps);
            && after.log == [Registered(0, 5, 1), Unregistered(0, 5, Some(2)), Registered(0, 5, 2),
               Delivered(5, Note(0, 0), 1)]
            && after.registry == map[(0, 5) := 2]
  {
    hide Inv;
    var init := Initial(policy);
    var seven, moved := MovedRun(policy);
    assert !Uses([Code(Some(2))], 1);
    var begun := BeginStep(moved, 0, 0);
    Extend(init, seven, Begin(0, 0), moved, begun);
    Extend(init, seven + [Begin(0, 0)], Start(0), begun, StartStep(begun, 0));
    steps := seven + [Begin(0, 0)] + [Start(0)];
  }
}
