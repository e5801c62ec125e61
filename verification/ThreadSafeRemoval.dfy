/** What removing an observer of the thread-safe list stops, and what it does not. */
module ThreadSafeRemoval {
  import opened Common
  import opened ThreadSafeList
  import opened ThreadSafeRuns
  import opened ThreadSafeDrain
  import opened ThreadSafeAffinity

  // ----- What a removal leaves -----

  function IsActive(l: ListId, o: Observer): Task -> bool
  {
    (task: Task) => task.note.list == l && task.observer == o && (task.phase.Checked? || task.phase == Called)
  }

  function IsCalled(l: ListId, o: Observer): Task -> bool
  {
    (task: Task) => task.note.list == l && task.observer == o && task.phase == Called
  }

  /** The callbacks of an observer in a list, so far. */
  function Callbacks(st: State, l: ListId, o: Observer): nat
  {
    Count(st.log, IsCallback(l, o))
  }

  /** As long as an observer is not registered again, its tasks can only go from checked to called. */
  lemma UnregisteredStep(st: State, step: Step, l: ListId, o: Observer)
    requires Inv(st) && Enabled(st, step) && (l, o) !in st.registry && !Adds(step, l, o)
    ensures var after := Apply(st, step);
            && (l, o) !in after.registry
            && Count(after.tasks, IsActive(l, o)) == Count(st.tasks, IsActive(l, o))
            && Callbacks(after, l, o) - Callbacks(st, l, o) ==
               Count(after.tasks, IsCalled(l, o)) - Count(st.tasks, IsCalled(l, o))
  {
    hide Count, Inv;
    var after := Apply(st, step);
    match step
    case Begin(t, id) =>
      CountUpdate(st.tasks, id, after.tasks[id], IsActive(l, o));
      CountUpdate(st.tasks, id, after.tasks[id], IsCalled(l, o));
    case Start(t) =>
      TopIsChecked(st, t);
      var id := Top(StackOf(st, t)).id;
      CountUpdate(st.tasks, id, after.tasks[id], IsActive(l, o));
      CountUpdate(st.tasks, id, after.tasks[id], IsCalled(l, o));
      CountPush(st.log, after.log[|st.log|], IsCallback(l, o));
    case Remove(t, l', o') =>
      CountPush(st.log, after.log[|st.log|], IsCallback(l, o));
    case Add(t, l', o') =>
      if Top(StackOf(st, t)).on.Some? {
        CountPush(st.log, after.log[|st.log|], IsCallback(l, o));
        PostingIsInactive(st.tasks, after.tasks[|st.tasks|..], l, o);
        assert after.tasks == st.tasks + after.tasks[|st.tasks|..];
      }
    case Notify(t, l', order) =>
      PostingIsInactive(st.tasks, Posted(st.registry, Note(l', st.notes), order), l, o);
    case _ =>
  }

  lemma PostingIsInactive(tasks: seq<Task>, extra: seq<Task>, l: ListId, o: Observer)
    requires forall i :: 0 <= i < |extra| ==> extra[i].phase == Queued
    ensures Count(tasks + extra, IsActive(l, o)) == Count(tasks, IsActive(l, o))
    ensures Count(tasks + extra, IsCalled(l, o)) == Count(tasks, IsCalled(l, o))
  {
    CountConcat(tasks, extra, IsActive(l, o));
    CountConcat(tasks, extra, IsCalled(l, o));
    CountNone(extra, IsActive(l, o));
    CountNone(extra, IsCalled(l, o));
  }

  lemma {:induction false} ActiveSplits(tasks: seq<Task>, l: ListId, o: Observer)
    ensures Count(tasks, IsActive(l, o)) == Count(tasks, IsChecked(l, o)) + Count(tasks, IsCalled(l, o))
    decreases |tasks|
  {
    if tasks == [] {
    } else {
      ActiveSplits(tasks[..|tasks| - 1], l, o);
    }
  }

  lemma {:induction false} UnregisteredRun(st: State, steps: seq<Step>, l: ListId, o: Observer)
    requires Inv(st) && AllEnabled(st, steps) && (l, o) !in st.registry && NeverAdds(steps, l, o)
    ensures var after := After(st, steps);
            && (l, o) !in after.registry
            && Count(after.tasks, IsActive(l, o)) == Count(st.tasks, IsActive(l, o))
            && Callbacks(after, l, o) - Callbacks(st, l, o) ==
               Count(after.tasks, IsCalled(l, o)) - Count(st.tasks, IsCalled(l, o))
    decreases |steps|
  {
    if steps == [] {
    } else {
      var init := steps[..|steps| - 1];
      assert NeverAdds(init, l, o);
      UnregisteredRun(st, init, l, o);
      UnregisteredStep(After(st, init), steps[|steps| - 1], l, o);
    }
  }

  /** After a removal, until the observer registers again, only callbacks that are past the locked check can start. */
  lemma OnlyCheckedTasksOvertakeRemoval(st: State, t: Thread, l: ListId, o: Observer, steps: seq<Step>)
    requires Inv(st) && Enabled(st, Remove(t, l, o))
    requires AllEnabled(Next(st, Remove(t, l, o)), steps) && NeverAdds(steps, l, o)
    ensures Callbacks(After(Next(st, Remove(t, l, o)), steps), l, o) <=
            Callbacks(st, l, o) + Count(st.tasks, IsChecked(l, o))
  {
    var removed := Next(st, Remove(t, l, o));
    var after := After(removed, steps);
    CountPush(st.log, removed.log[|st.log|], IsCallback(l, o));
    UnregisteredRun(removed, steps, l, o);
    ActiveSplits(st.tasks, l, o);
    ActiveSplits(after.tasks, l, o);
  }

  /**
   Two tasks of one sequence are never past the check together: a sequence runs on one
   thread, and only its top frame has not started.
   */
  lemma CheckedTasksAreAlone(st: State, id: nat, id': nat)
    requires Inv(st) && id < |st.tasks| && id' < |st.tasks|
    requires st.tasks[id].phase.Checked? && st.tasks[id'].phase.Checked?
    requires st.tasks[id].sequence == st.tasks[id'].sequence
    ensures id == id'
  {
    CheckedUses(st, id);
    CheckedUses(st, id');
  }

  lemma CheckedUses(st: State, id: nat)
    requires Inv(st) && id < |st.tasks| && st.tasks[id].phase.Checked?
    ensures var t := st.tasks[id].phase.thread;
            && t in st.stacks && Uses(st.stacks[t], st.tasks[id].sequence)
            && Top(st.stacks[t]).Dispatch? && !Top(st.stacks[t]).started && Top(st.stacks[t]).id == id
  {
    var t := st.tasks[id].phase.thread;
    var stack := StackOf(st, t);
    assert stack != [] && Top(stack).Dispatch? && Top(stack).id == id;
    assert FramesMatch(st.tasks, stack, t);
    assert stack[|stack| - 1].on == Some(st.tasks[id].sequence);
  }

  /** So a removal from anywhere is overtaken by at most one callback, if those past the check are on one sequence. */
  lemma RemovalIsOvertakenAtMostOnce(st: State, t: Thread, l: ListId, o: Observer, s: Sequence, steps: seq<Step>)
    requires Inv(st) && Enabled(st, Remove(t, l, o))
    requires AllOn(st.tasks, IsChecked(l, o), s)
    requires AllEnabled(Next(st, Remove(t, l, o)), steps) && NeverAdds(steps, l, o)
    ensures Callbacks(After(Next(st, Remove(t, l, o)), steps), l, o) <= Callbacks(st, l, o) + 1
  {
    OnlyCheckedTasksOvertakeRemoval(st, t, l, o, steps);
    forall i, j | 0 <= i < j < |st.tasks|
      ensures !(IsChecked(l, o)(st.tasks[i]) && IsChecked(l, o)(st.tasks[j]))
    {
      if IsChecked(l, o)(st.tasks[i]) && IsChecked(l, o)(st.tasks[j]) {
        assert st.tasks[i].sequence == s && st.tasks[j].sequence == s;
        CheckedTasksAreAlone(st, i, j);
      }
    }
    CountUnique(st.tasks, IsChecked(l, o));
  }

  /** Every callback that is past the check can overtake the removal: the bound is reached. */
  lemma {:induction false} CheckedTasksCanOvertake(st: State, l: ListId, o: Observer) returns (after: State)
    requires Inv(st) && (l, o) !in st.registry
    ensures Drains(st, after) && Callbacks(after, l, o) == Callbacks(st, l, o) + Count(st.tasks, IsChecked(l, o))
    decreases Count(st.tasks, IsChecked(l, o))
  {
    hide Inv, Drains, Count;
    if Count(st.tasks, IsChecked(l, o)) == 0 {
      after := st;
      DrainsNothing(st);
    } else {
      var id := CountedOne(st.tasks, IsChecked(l, o));
      var t := st.tasks[id].phase.thread;
      CheckedUses(st, id);
      var next := Next(st, Start(t));
      DrainsOne(st, Start(t));
      UnregisteredStep(st, Start(t), l, o);
      ActiveSplits(st.tasks, l, o);
      ActiveSplits(next.tasks, l, o);
      CountUpdate(st.tasks, id, next.tasks[id], IsCalled(l, o));
      after := CheckedTasksCanOvertake(next, l, o);
      DrainsOn(st, next, after);
    }
  }

  lemma CountedOne<T>(s: seq<T>, p: T -> bool) returns (i: nat)
    requires Count(s, p) > 0
    ensures i < |s| && p(s[i])
  {
    if forall i :: 0 <= i < |s| ==> !p(s[i]) {
      CountNone(s, p);
    }
    i :| 0 <= i < |s| && p(s[i]);
  }

  /** No callback starts from here on until the observer registers again. */
  ghost predicate Silent(st: State, l: ListId, o: Observer)
    requires Inv(st)
  {
    forall steps :: AllEnabled(st, steps) && NeverAdds(steps, l, o) ==>
                      Callbacks(After(st, steps), l, o) == Callbacks(st, l, o)
  }

  /** A removal is final for the moment exactly when no task of the observer is past the locked check. */
  lemma RemovalSilencesIff(st: State, t: Thread, l: ListId, o: Observer)
    requires Inv(st) && Enabled(st, Remove(t, l, o))
    ensures Silent(Next(st, Remove(t, l, o)), l, o) <==>
            forall id :: 0 <= id < |st.tasks| ==> !IsChecked(l, o)(st.tasks[id])
  {
    hide Inv, Count, IsChecked;
    var removed := Next(st, Remove(t, l, o));
    CountPush(st.log, removed.log[|st.log|], IsCallback(l, o));
    if forall id :: 0 <= id < |st.tasks| ==> !IsChecked(l, o)(st.tasks[id]) {
      CountNone(st.tasks, IsChecked(l, o));
      forall steps | AllEnabled(removed, steps) && NeverAdds(steps, l, o)
        ensures Callbacks(After(removed, steps), l, o) == Callbacks(removed, l, o)
      {
        OnlyCheckedTasksOvertakeRemoval(st, t, l, o, steps);
        CallbacksGrow(removed, steps, l, o);
      }
    } else {
      var id :| 0 <= id < |st.tasks| && IsChecked(l, o)(st.tasks[id]);
      CountSome(st.tasks, id, IsChecked(l, o));
      var after := CheckedTasksCanOvertake(removed, l, o);
      var steps :| OnlyDrains(steps) && AllEnabled(removed, steps) && After(removed, steps) == after;
      assert NeverAdds(steps, l, o);
    }
  }

  /**
   That is so for a removal from the sequence where the observer is called, although its
   tasks may still be queued.
   */
  lemma NoCallbackAfterOwnRemoval(st: State, t: Thread, l: ListId, o: Observer, s: Sequence)
    requires Inv(st) && Enabled(st, Remove(t, l, o)) && Top(StackOf(st, t)).on == Some(s)
    requires AllOn(st.tasks, IsChecked(l, o), s)
    ensures Silent(Next(st, Remove(t, l, o)), l, o)
  {
    hide Silent;
    var stack := StackOf(st, t);
    assert Uses(stack, s) by { assert stack[|stack| - 1].on == Some(s); }
    forall i | 0 <= i < |st.tasks|
      ensures !IsChecked(l, o)(st.tasks[i])
    {
      if IsChecked(l, o)(st.tasks[i]) {
        assert st.tasks[i].sequence == s;
        CheckedUses(st, i);
      }
    }
    RemovalSilencesIff(st, t, l, o);
  }

  /** Observers that register from one sequence only are of that kind. */
  lemma PendingOnRegistrationSequence(st: State, l: ListId, o: Observer, s: Sequence)
    requires Inv(st) && RegistersOnlyFrom(st.log, l, o, s)
    ensures AllOn(st.tasks, IsPending(l, o), s) && AllOn(st.tasks, IsChecked(l, o), s)
  {
    assert Traced(st);
  }

  lemma CallbacksGrow(st: State, steps: seq<Step>, l: ListId, o: Observer)
    requires Inv(st) && AllEnabled(st, steps)
    ensures Callbacks(st, l, o) <= Callbacks(After(st, steps), l, o)
  {
    hide Inv;
    RunExtendsLog(st, steps);
    var log := After(st, steps).log;
    CountConcat(st.log, log[|st.log|..], IsCallback(l, o));
    assert log == st.log + log[|st.log|..];
  }

  // ----- What becomes of the notifications that had not started -----

  lemma AbortedStep(st: State, step: Step, l: ListId, o: Observer, id: nat)
    requires Inv(st) && Enabled(st, step) && (l, o) !in st.registry && !Adds(step, l, o) && id < |st.tasks|
    requires st.tasks[id].note.list == l && st.tasks[id].observer == o && st.tasks[id].phase in {Queued, Dropped}
    ensures var after := Next(st, step);
            && (l, o) !in after.registry && id < |after.tasks|
            && after.tasks[id] in {st.tasks[id], st.tasks[id].(phase := Dropped)}
  {
    if step.Start? {
      TopIsChecked(st, step.t);
    }
  }

  /**
   A notification that has not got to the check when its observer is removed never calls it,
   until it registers again.
   */
  lemma {:induction false} QueuedTasksAreAborted(st: State, steps: seq<Step>, l: ListId, o: Observer, id: nat)
    requires Inv(st) && AllEnabled(st, steps) && (l, o) !in st.registry && NeverAdds(steps, l, o)
    requires id < |st.tasks| && IsQueued(l, o)(st.tasks[id])
    ensures var after := After(st, steps);
            && (l, o) !in after.registry && id < |after.tasks|
            && after.tasks[id] in {st.tasks[id], st.tasks[id].(phase := Dropped)}
    decreases |steps|
  {
    hide Inv, Enabled, Next;
    if steps == [] {
    } else {
      var init := steps[..|steps| - 1];
      assert NeverAdds(init, l, o);
      QueuedTasksAreAborted(st, init, l, o, id);
      AbortedStep(After(st, init), steps[|steps| - 1], l, o, id);
    }
  }

  /**
   The comment on RemoveObserver calls such a notification aborted. It is not: from every
   state where it is queued, whatever else is going on, there are runs in which the
   observer registers again, from a sequence of our choice, and then is called by it.
   */
  lemma OldNotificationReachesReturningObserver(st: State, l: ListId, o: Observer, id: nat, s: Sequence)
    returns (idle: State, t: Thread, after: State)
    requires Inv(st) && (l, o) !in st.registry && id < |st.tasks| && IsQueued(l, o)(st.tasks[id])
    ensures Drains(st, idle) && Inv(idle) && idle.registry == st.registry
    ensures AllEnabled(idle, [Enter(t, Some(s)), Add(t, l, o), Leave(t)])
    ensures Drains(After(idle, [Enter(t, Some(s)), Add(t, l, o), Leave(t)]), after)
    ensures Happened(st, after, Delivered(o, st.tasks[id].note, st.tasks[id].sequence))
  {
    idle, t := FreeSequence(st, s);
    CarriedByDraining(st, idle);
    var back := ComeBack(idle, t, l, o, s);
    after := PendingCanBeDelivered(back, l, o, id);
    CarriedByDraining(back, after);
    EarlierHappened(st, idle, back, after, Delivered(o, st.tasks[id].note, st.tasks[id].sequence));
  }

  lemma EarlierHappened(st: State, idle: State, back: State, after: State, e: Event)
    requires st.log <= idle.log <= back.log && Happened(back, after, e)
    ensures Happened(st, after, e)
  {
    assert after.log[|st.log|..][|back.log| - |st.log|..] == after.log[|back.log|..];
  }

  lemma ComeBack(idle: State, t: Thread, l: ListId, o: Observer, s: Sequence) returns (back: State)
    requires Inv(idle) && StackOf(idle, t) == [] && FreeFor(idle, t, s) && (l, o) !in idle.registry
    ensures AllEnabled(idle, [Enter(t, Some(s)), Add(t, l, o), Leave(t)])
    ensures back == After(idle, [Enter(t, Some(s)), Add(t, l, o), Leave(t)])
    ensures back.registry == idle.registry[(l, o) := s] && idle.tasks <= back.tasks && idle.log <= back.log
  {
    hide Inv, FreeFor;
    var steps := [Enter(t, Some(s)), Add(t, l, o), Leave(t)];
    var entered := Apply(idle, Enter(t, Some(s)));
    Extend(idle, [], Enter(t, Some(s)), idle, entered);
    var added := AddStep(entered, t, l, o);
    Extend(idle, [Enter(t, Some(s))], Add(t, l, o), entered, added);
    back := Apply(added, Leave(t));
    Extend(idle, [Enter(t, Some(s)), Add(t, l, o)], Leave(t), added, back);
    assert steps == [Enter(t, Some(s)), Add(t, l, o)] + [Leave(t)];
  }

  /** Such a run from the initial state: observer 5 leaves and comes back on its own sequence before its task runs. */
  lemma StaleNotificationRun(policy: ListId -> Policy) returns (steps: seq<Step>)
    ensures steps == [Enter(0, Some(1)), Add(0, 0, 5), Notify(0, 0, [5]), Remove(0, 0, 5), Add(0, 0, 5),
                      Leave(0), Begin(0, 0), Start(0)]
    ensures AllEnabled(Initial(policy), steps)
    ensures After(Initial(policy), steps).log ==
            [Registered(0, 5, 1), Unregistered(0, 5, Some(1)), Registered(0, 5, 1), Delivered(5, Note(0, 0), 1)]
  {
    hide Inv;
    var init := Initial(policy);
    var three, posted := PostedRun(policy);
    var removed := posted.(registry := map[], log := [Registered(0, 5, 1), Unregistered(0, 5, Some(1))]);
    var returned := removed.(registry := map[(0, 5) := 1], log := removed.log + [Registered(0, 5, 1)]);
    var left := returned.(stacks := map[0 := []]);
    assert posted.registry - {(0, 5)} == map[];
    Extend(init, three, Remove(0, 0, 5), posted, removed);
    Extend(init, three + [Remove(0, 0, 5)], Add(0, 0, 5), removed, returned);
    var five := three + [Remove(0, 0, 5)] + [Add(0, 0, 5)];
    Extend(init, five, Leave(0), returned, left);
    var begun := BeginStep(left, 0, 0);
    Extend(init, five + [Leave(0)], Begin(0, 0), left, begun);
    Extend(init, five + [Leave(0)] + [Begin(0, 0)], Start(0), begun, StartStep(begun, 0));
    steps := five + [Leave(0)] + [Begin(0, 0)] + [Start(0)];
  }
}
