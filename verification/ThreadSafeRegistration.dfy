/** Who is registered with the thread-safe list, and that no notification for a registered observer is lost. */
module ThreadSafeRegistration {
  import opened Common
  import opened ThreadSafeList
  import opened ThreadSafeRuns

  /** The sequence for which an observer is registered with a list. */
  function Registration(st: State, l: ListId, o: Observer): Option<Sequence>
  {
    if (l, o) in st.registry then Some(st.registry[(l, o)]) else None
  }

  predicate Removes(step: Step, l: ListId, o: Observer)
  {
    step.Remove? && step.list == l && step.observer == o
  }

  ghost predicate NeverRemoves(steps: seq<Step>, l: ListId, o: Observer)
  {
    forall i :: 0 <= i < |steps| ==> !Removes(steps[i], l, o)
  }

  /** A registration comes and goes only by steps that name the observer and the list. */
  lemma RegistrationChanges(st: State, step: Step, l: ListId, o: Observer)
    requires Inv(st) && Enabled(st, step)
    ensures Registration(Next(st, step), l, o) ==
            if Removes(step, l, o) then None
            else if Adds(step, l, o) && Top(StackOf(st, step.t)).on.Some? then Top(StackOf(st, step.t)).on
            else Registration(st, l, o)
  {
    hide Inv;
  }

  /** A registered observer stays registered, for the same sequence, until it is removed. */
  lemma {:induction false} StaysRegistered(st: State, steps: seq<Step>, l: ListId, o: Observer, s: Sequence)
    requires Inv(st) && AllEnabled(st, steps) && NeverRemoves(steps, l, o) && Registration(st, l, o) == Some(s)
    ensures Registration(After(st, steps), l, o) == Some(s)
    decreases |steps|
  {
    hide Inv, Next;
    if steps == [] {
    } else {
      var init := steps[..|steps| - 1];
      assert NeverRemoves(init, l, o);
      StaysRegistered(st, init, l, o, s);
      RegistrationChanges(After(st, init), steps[|steps| - 1], l, o);
    }
  }

  /** The ways of a task: checked on the thread that calls it, called or dropped for good. */
  predicate MayBecome(before: Phase, after: Phase)
  {
    after == before || before == Queued || (before.Checked? && after == Called)
  }

  /** No step takes a task away, or gives it to somebody else; only the task of an unregistered observer is dropped. */
  lemma TaskStep(st: State, step: Step, id: nat)
    requires Inv(st) && Enabled(st, step) && id < |st.tasks|
    ensures var task, after := st.tasks[id], Next(st, step);
            && id < |after.tasks| && after.tasks[id] == task.(phase := after.tasks[id].phase)
            && MayBecome(task.phase, after.tasks[id].phase)
            && (after.tasks[id].phase == Dropped != task.phase ==>
               Registration(st, task.note.list, task.observer) == None)
  {
    if step.Start? {
      TopIsChecked(st, step.t);
    }
    hide Inv;
  }

  /** In every run a task stays the one it is, and goes its way. */
  lemma {:induction false} TaskRun(st: State, steps: seq<Step>, id: nat)
    requires Inv(st) && AllEnabled(st, steps) && id < |st.tasks|
    ensures var after := After(st, steps);
            && id < |after.tasks| && after.tasks[id] == st.tasks[id].(phase := after.tasks[id].phase)
            && MayBecome(st.tasks[id].phase, after.tasks[id].phase)
    decreases |steps|
  {
    hide Inv, Next;
    if steps == [] {
    } else {
      TaskRun(st, steps[..|steps| - 1], id);
      TaskStep(After(st, steps[..|steps| - 1]), steps[|steps| - 1], id);
    }
  }

  /**
   As long as an observer is not removed, none of its tasks is dropped: what is pending stays
   so until it is called.
   */
  lemma {:induction false} NoneIsDropped(st: State, steps: seq<Step>, l: ListId, o: Observer, id: nat)
    requires Inv(st) && AllEnabled(st, steps) && NeverRemoves(steps, l, o) && Registration(st, l, o).Some?
    requires id < |st.tasks| && st.tasks[id].note.list == l && st.tasks[id].observer == o &&
             st.tasks[id].phase != Dropped
    ensures id < |After(st, steps).tasks| && After(st, steps).tasks[id].phase != Dropped
    decreases |steps|
  {
    hide Inv, Next;
    if steps == [] {
    } else {
      var init := steps[..|steps| - 1];
      assert NeverRemoves(init, l, o);
      NoneIsDropped(st, init, l, o, id);
      TaskRun(st, init, id);
      StaysRegistered(st, init, l, o, Registration(st, l, o).value);
      TaskStep(After(st, init), steps[|steps| - 1], id);
    }
  }

  lemma NothingCounted(policy: ListId -> Policy)
    ensures Counted(Initial(policy))
  {
  }

  /** The task that a notification posts for a registered observer. */
  lemma PostedTask(st: State, t: Thread, l: ListId, order: seq<Observer>, o: Observer) returns (id: nat)
    requires Inv(st) && Enabled(st, Notify(t, l, order)) && Registration(st, l, o).Some?
    ensures var notified := Next(st, Notify(t, l, order));
            && id < |notified.tasks| && Registration(notified, l, o) == Registration(st, l, o)
            && notified.tasks[id] == Task(o, Note(l, st.notes), Registration(st, l, o).value, Queued)
  {
    hide Inv;
    var i :| 0 <= i < |order| && order[i] == o;
    id := |st.tasks| + i;
  }

  /**
   No notification is lost: whoever is registered when a list is notified and is not removed
   has been called with it as soon as nothing is pending for it.
   */
  lemma NotifiedObserversAreCalled(
    policy: ListId -> Policy, before: seq<Step>, t: Thread, l: ListId, order: seq<Observer>,
      steps: seq<Step>, o: Observer)
    requires AllEnabled(Initial(policy), before)
    requires var st := After(Initial(policy), before);
             && Enabled(st, Notify(t, l, order)) && Registration(st, l, o).Some?
             && var notified := Next(st, Notify(t, l, order));
                && AllEnabled(notified, steps) && NeverRemoves(steps, l, o)
                && Count(After(notified, steps).tasks, IsPending(l, o)) == 0
    ensures var st := After(Initial(policy), before);
            var log := After(Next(st, Notify(t, l, order)), steps).log;
            1 <= Count(log, IsDelivery(o, Note(l, st.notes))) <= Count(log, IsRegistration(l, o))
  {
    hide Inv, Count, Enabled, Apply;
    var init := Initial(policy);
    var st := After(init, before);
    var notified := Next(st, Notify(t, l, order));
    var after := After(notified, steps);
    var n := Note(l, st.notes);
    var id := PostedTask(st, t, l, order, o);
    NoneIsDropped(notified, steps, l, o, id);
    TaskRun(notified, steps, id);
    if IsPending(l, o)(after.tasks[id]) {
      CountSome(after.tasks, id, IsPending(l, o));
    }
    CountSome(after.tasks, id, IsCall(o, n));
    NothingCounted(policy);
    RunKeepsCounted(init, before);
    StepKeepsCounted(st, Notify(t, l, order));
    RunKeepsCounted(notified, steps);
    CountLess(after.tasks, IsCall(o, n), IsPost(o, n));
  }
}
