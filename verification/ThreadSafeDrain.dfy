/**
 Draining the thread-safe observer list: from every state of the protocol, a thread can end
 what it is doing, and a sequence can get to any task of its queue. So what is pending for a
 registered observer can be delivered.
 */
module ThreadSafeDrain {
  import opened Common
  import opened ThreadSafeList
  import opened ThreadSafeRuns

  /** A step that ends something or takes a queued task, and changes no registration. */
  predicate IsDrain(step: Step)
  {
    step.Leave? || step.Begin? || step.Start? || step.Finish?
  }

  ghost predicate OnlyDrains(steps: seq<Step>)
  {
    forall i :: 0 <= i < |steps| ==> IsDrain(steps[i])
  }

  /** Some run of such steps leads from one state to the other. */
  ghost predicate Drains(st: State, after: State)
  {
    Inv(st) && exists steps :: OnlyDrains(steps) && AllEnabled(st, steps) && After(st, steps) == after
  }

  lemma DrainsNothing(st: State)
    requires Inv(st)
    ensures Drains(st, st)
  {
    hide Inv;
    assert OnlyDrains([]) && AllEnabled(st, []) && After(st, []) == st;
  }

  lemma DrainsOne(st: State, step: Step)
    requires Inv(st) && Enabled(st, step) && IsDrain(step)
    ensures Drains(st, Next(st, step))
  {
    hide Inv, Enabled, Apply;
    assert AllEnabled(st, []) && After(st, []) == st;
    Extend(st, [], step, st, Next(st, step));
    assert [] + [step] == [step];
    assert OnlyDrains([step]);
  }

  lemma DrainsOn(a: State, b: State, c: State)
    requires Drains(a, b) && Drains(b, c)
    ensures Drains(a, c)
  {
    hide Inv, Enabled, Next;
    var first :| OnlyDrains(first) && AllEnabled(a, first) && After(a, first) == b;
    var second :| OnlyDrains(second) && AllEnabled(b, second) && After(b, second) == c;
    RunConcat(a, first, second);
    assert OnlyDrains(first + second);
  }

  // ----- What draining keeps -----

  /** The registry, and every task up to its phase. */
  ghost predicate Carries(st: State, after: State)
  {
    && after.registry == st.registry && |after.tasks| == |st.tasks|
    && (forall id :: 0 <= id < |st.tasks| ==> after.tasks[id] == st.tasks[id].(phase := after.tasks[id].phase))
    && st.log <= after.log
  }

  lemma DrainStepCarries(st: State, step: Step)
    requires Inv(st) && Enabled(st, step) && IsDrain(step)
    ensures Carries(st, Next(st, step))
  {
    if step.Start? {
      TopIsChecked(st, step.t);
    }
  }

  lemma {:induction false} DrainRunCarries(st: State, steps: seq<Step>)
    requires Inv(st) && AllEnabled(st, steps) && OnlyDrains(steps)
    ensures Carries(st, After(st, steps))
    decreases |steps|
  {
    hide Inv, Enabled, Next;
    if steps == [] {
    } else {
      var init := steps[..|steps| - 1];
      DrainRunCarries(st, init);
      DrainStepCarries(After(st, init), steps[|steps| - 1]);
    }
  }

  lemma CarriedByDraining(st: State, after: State)
    requires Drains(st, after)
    ensures Carries(st, after)
  {
    hide Inv, Enabled, Next, Carries;
    var steps :| OnlyDrains(steps) && AllEnabled(st, steps) && After(st, steps) == after;
    DrainRunCarries(st, steps);
  }

  /** Only thread t has done something, and no task but those in taken has left its queue. */
  ghost predicate OnlyThread(st: State, after: State, t: Thread, taken: set<nat>)
  {
    && after.stacks - {t} == st.stacks - {t}
    && |after.tasks| == |st.tasks|
    && forall id :: 0 <= id < |st.tasks| && id !in taken &&
                    (st.tasks[id].phase == Queued || after.tasks[id].phase == Queued) ==>
                      after.tasks[id] == st.tasks[id]
  }

  lemma StaysFree(st: State, after: State, t: Thread, s: Sequence)
    requires FreeFor(st, t, s) && after.stacks - {t} == st.stacks - {t}
    ensures FreeFor(after, t, s)
  {
    forall t' | t' in after.stacks && t' != t
      ensures !Uses(after.stacks[t'], s)
    {
      assert t' in after.stacks - {t} && (after.stacks - {t})[t'] == (st.stacks - {t})[t'];
    }
  }

  /** The step that ends, or goes on with, what a thread is doing. */
  function Ending(st: State, t: Thread): Step
    requires StackOf(st, t) != []
  {
    var top := Top(StackOf(st, t));
    if top.Code? then Leave(t) else if top.started then Finish(t) else Start(t)
  }

  lemma EndingStep(st: State, t: Thread)
    requires Inv(st) && StackOf(st, t) != []
    ensures Enabled(st, Ending(st, t))
    ensures var after := Next(st, Ending(st, t)); OnlyThread(st, after, t, {}) && if Ending(st, t).Start? then
              |StackOf(after, t)| == |StackOf(st, t)| && !Ending(after, t).Start?
            else |StackOf(after, t)| == |StackOf(st, t)| - 1
  {
    if Ending(st, t).Start? {
      TopIsChecked(st, t);
    }
  }

  /** Every thread can come to the end of all that it is doing. */
  lemma {:induction false} DrainThread(st: State, t: Thread) returns (after: State)
    requires Inv(st)
    ensures Drains(st, after) && Inv(after) && OnlyThread(st, after, t, {}) && StackOf(after, t) == []
    decreases |StackOf(st, t)|, StackOf(st, t) != [] && Ending(st, t).Start?
  {
    hide Inv, Enabled, Next, Drains;
    if StackOf(st, t) == [] {
      after := st;
      DrainsNothing(st);
    } else {
      EndingStep(st, t);
      var next := Next(st, Ending(st, t));
      DrainsOne(st, Ending(st, t));
      after := DrainThread(next, t);
      DrainsOn(st, next, after);
    }
  }

  /** Every sequence can be made free for an idle thread. */
  lemma FreeSequence(st: State, s: Sequence) returns (after: State, t: Thread)
    requires Inv(st)
    ensures Drains(st, after) && Inv(after) && OnlyThread(st, after, t, {})
    ensures StackOf(after, t) == [] && FreeFor(after, t, s)
  {
    t := 0;
    if user :| user in st.stacks && Uses(st.stacks[user], s) {
      t := user;
    }
    assert FreeFor(st, t, s);
    hide Inv, Drains;
    after := DrainThread(st, t);
    StaysFree(st, after, t, s);
  }

  // ----- Getting to a task of a queue -----

  /** An idle thread can take the head of a queue, whether it is dropped or called, and be idle again. */
  lemma TakeHead(st: State, t: Thread, id: nat) returns (after: State)
    requires Inv(st) && StackOf(st, t) == [] && HeadOfQueue(st.tasks, id) && FreeFor(st, t, st.tasks[id].sequence)
    ensures Drains(st, after) && Inv(after) && StackOf(after, t) == []
    ensures OnlyThread(st, after, t, {id}) && Carries(st, after) && after.tasks[id].phase != Queued
  {
    hide Inv, Drains;
    var begun := Next(st, Begin(t, id));
    DrainsOne(st, Begin(t, id));
    DrainStepCarries(st, Begin(t, id));
    after := DrainThread(begun, t);
    DrainsOn(st, begun, after);
    CarriedByDraining(begun, after);
  }

  /** An idle thread can take a queue task by task until a given task is its head. */
  lemma {:induction false} TakeUpTo(st: State, t: Thread, id: nat, from: nat) returns (after: State)
    requires Inv(st) && StackOf(st, t) == [] && id < |st.tasks| && st.tasks[id].phase == Queued
    requires FreeFor(st, t, st.tasks[id].sequence)
    requires from <= id && forall j :: 0 <= j < from ==>
             !(st.tasks[j].phase == Queued && st.tasks[j].sequence == st.tasks[id].sequence)
    ensures Drains(st, after) && Inv(after) && StackOf(after, t) == []
    ensures HeadOfQueue(after.tasks, id) && after.tasks[id] == st.tasks[id] && FreeFor(after, t, st.tasks[id].sequence)
    decreases id - from
  {
    hide Inv, Drains, FreeFor;
    if from == id {
      after := st;
      DrainsNothing(st);
    } else if st.tasks[from].phase == Queued && st.tasks[from].sequence == st.tasks[id].sequence {
      var next := TakeHead(st, t, from);
      StaysFree(st, next, t, st.tasks[id].sequence);
      after := TakeUpTo(next, t, id, from + 1);
      DrainsOn(st, next, after);
    } else {
      after := TakeUpTo(st, t, id, from + 1);
    }
  }

  /** Every queued task can come to the head of its queue, with an idle thread to take it. */
  lemma BringToHead(st: State, id: nat) returns (after: State, t: Thread)
    requires Inv(st) && id < |st.tasks| && st.tasks[id].phase == Queued
    ensures Drains(st, after) && Inv(after) && Enabled(after, Begin(t, id)) && after.tasks[id] == st.tasks[id]
  {
    hide Inv, Drains, FreeFor;
    var free: State;
    free, t := FreeSequence(st, st.tasks[id].sequence);
    after := TakeUpTo(free, t, id, 0);
    DrainsOn(st, free, after);
  }
}
