/** What holds in every run of the thread-safe observer list, with any number of threads, sequences and lists. */
module ThreadSafeRuns {
  import opened Common
  import opened ThreadSafeList

  ghost function Initial(policy: ListId -> Policy): (st: State)
    ensures Inv(st)
  {
    State(policy, map[], [], map[], map[], 0, [])
  }

  ghost function Next(st: State, step: Step): (after: State)
    requires Inv(st) && Enabled(st, step)
    ensures Inv(after)
  {
    StepKeepsInv(st, step);
    Apply(st, step)
  }

  // ----- Runs -----

  ghost predicate AllEnabled(st: State, steps: seq<Step>)
    requires Inv(st)
    decreases |steps|, 0
  {
    steps == [] ||
    (AllEnabled(st, steps[..|steps| - 1]) && Enabled(After(st, steps[..|steps| - 1]), steps[|steps| - 1]))
  }

  ghost function After(st: State, steps: seq<Step>): (after: State)
    requires Inv(st) && AllEnabled(st, steps)
    ensures Inv(after)
    decreases |steps|, 1
  {
    if steps == [] then st
    else
      Next(After(st, steps[..|steps| - 1]), steps[|steps| - 1])
  }

  lemma {:induction false} RunConcat(st: State, a: seq<Step>, b: seq<Step>)
    requires Inv(st) && AllEnabled(st, a) && AllEnabled(After(st, a), b)
    ensures AllEnabled(st, a + b) && After(st, a + b) == After(After(st, a), b)
    decreases |b|
  {
    hide Inv, Enabled, Next;
    if b == [] {
      assert a + b == a;
    } else {
      RunConcat(st, a, b[..|b| - 1]);
      assert (a + b)[..|a + b| - 1] == a + b[..|b| - 1];
    }
  }

  /** A run with one more step. */
  lemma Extend(init: State, steps: seq<Step>, step: Step, before: State, after: State)
    requires Inv(init) && AllEnabled(init, steps) && After(init, steps) == before && Inv(before)
    requires Enabled(before, step) && Apply(before, step) == after
    ensures AllEnabled(init, steps + [step]) && After(init, steps + [step]) == after && Inv(after)
  {
    hide Inv, Enabled, Apply;
    assert (steps + [step])[..|steps|] == steps;
  }

  lemma StepExtendsLog(st: State, step: Step)
    requires Inv(st) && Enabled(st, step)
    ensures st.log <= Next(st, step).log
  {
  }

  lemma {:induction false} RunExtendsLog(st: State, steps: seq<Step>)
    requires Inv(st) && AllEnabled(st, steps)
    ensures st.log <= After(st, steps).log
    decreases |steps|
  {
    hide Inv, Enabled, Next;
    if steps == [] {
    } else {
      RunExtendsLog(st, steps[..|steps| - 1]);
      StepExtendsLog(After(st, steps[..|steps| - 1]), steps[|steps| - 1]);
    }
  }

  /** The event is one of those between two states of a run. */
  predicate Happened(st: State, after: State, e: Event)
  {
    st.log <= after.log && e in after.log[|st.log|..]
  }

  predicate Adds(step: Step, l: ListId, o: Observer)
  {
    step.Add? && step.list == l && step.observer == o
  }

  ghost predicate NeverAdds(steps: seq<Step>, l: ListId, o: Observer)
  {
    forall i :: 0 <= i < |steps| ==> !Adds(steps[i], l, o)
  }

  // ----- Counting -----

  function Count<T>(s: seq<T>, p: T -> bool): nat
  {
    if s == [] then 0 else Count(s[..|s| - 1], p) + (if p(s[|s| - 1]) then 1 else 0)
  }

  lemma {:induction false} CountConcat<T>(s: seq<T>, t: seq<T>, p: T -> bool)
    ensures Count(s + t, p) == Count(s, p) + Count(t, p)
    decreases |t|
  {
    if t == [] {
      assert s + t == s;
    } else {
      CountConcat(s, t[..|t| - 1], p);
      assert (s + t)[..|s + t| - 1] == s + t[..|t| - 1];
    }
  }

  lemma CountPush<T>(s: seq<T>, x: T, p: T -> bool)
    ensures Count(s + [x], p) == Count(s, p) + (if p(x) then 1 else 0)
  {
    assert (s + [x])[..|s|] == s;
  }

  lemma {:induction false} CountUpdate<T>(s: seq<T>, i: nat, x: T, p: T -> bool)
    requires i < |s|
    ensures Count(s[i := x], p) == Count(s, p) - (if p(s[i]) then 1 else 0) + (if p(x) then 1 else 0)
    decreases |s|
  {
    var n := |s| - 1;
    if i < n {
      CountUpdate(s[..n], i, x, p);
      assert s[i := x][..n] == s[..n][i := x];
    } else {
      assert s[i := x][..n] == s[..n];
    }
  }

  lemma {:induction false} CountNone<T>(s: seq<T>, p: T -> bool)
    requires forall i :: 0 <= i < |s| ==> !p(s[i])
    ensures Count(s, p) == 0
    decreases |s|
  {
    if s == [] {
    } else {
      CountNone(s[..|s| - 1], p);
    }
  }

  lemma {:induction false} CountSome<T>(s: seq<T>, i: nat, p: T -> bool)
    requires i < |s| && p(s[i])
    ensures Count(s, p) >= 1
    decreases |s|
  {
    if i < |s| - 1 {
      CountSome(s[..|s| - 1], i, p);
    }
  }

  lemma {:induction false} CountUnique<T>(s: seq<T>, p: T -> bool)
    requires forall i, j :: 0 <= i < j < |s| ==> !(p(s[i]) && p(s[j]))
    ensures Count(s, p) <= 1
    decreases |s|
  {
    if s == [] {
    } else {
      if p(s[|s| - 1]) {
        CountNone(s[..|s| - 1], p);
      } else {
        CountUnique(s[..|s| - 1], p);
      }
    }
  }

  lemma {:induction false} CountLess<T>(s: seq<T>, p: T -> bool, q: T -> bool)
    requires forall i :: 0 <= i < |s| && p(s[i]) ==> q(s[i])
    ensures Count(s, p) <= Count(s, q)
    decreases |s|
  {
    if s == [] {
    } else {
      CountLess(s[..|s| - 1], p, q);
    }
  }

  function IsPost(o: Observer, n: Note): Task -> bool
  {
    (task: Task) => task.observer == o && task.note == n
  }

  function IsCall(o: Observer, n: Note): Task -> bool
  {
    (task: Task) => task.observer == o && task.note == n && task.phase == Called
  }

  function IsDelivery(o: Observer, n: Note): Event -> bool
  {
    (e: Event) => e.Delivered? && e.observer == o && e.note == n
  }

  function IsRegistration(l: ListId, o: Observer): Event -> bool
  {
    (e: Event) => e.Registered? && e.list == l && e.observer == o
  }

  function IsQueued(l: ListId, o: Observer): Task -> bool
  {
    (task: Task) => task.note.list == l && task.observer == o && task.phase == Queued
  }

  /** The tasks that can still call the observer. */
  function IsPending(l: ListId, o: Observer): Task -> bool
  {
    (task: Task) => task.note.list == l && task.observer == o && (task.phase == Queued || task.phase.Checked?)
  }

  function IsChecked(l: ListId, o: Observer): Task -> bool
  {
    (task: Task) => task.note.list == l && task.observer == o && task.phase.Checked?
  }

  function IsCallback(l: ListId, o: Observer): Event -> bool
  {
    (e: Event) => e.Delivered? && e.note.list == l && e.observer == o
  }

  // ----- The current notification -----

  /** In every run, the thread-local notification of a thread is that of its innermost dispatch. */
  lemma CurrentIsInnermost(policy: ListId -> Policy, steps: seq<Step>, t: Thread)
    requires AllEnabled(Initial(policy), steps)
    ensures var st := After(Initial(policy), steps); TlsOf(st, t) == Innermost(StackOf(st, t))
  {
    var st := After(Initial(policy), steps);
    assert Inv(st);
  }

  /**
   AddObserver posts one task, for the newcomer, exactly when the innermost dispatch belongs
   to a list with policy ALL.
   */
  lemma AddPostsForInnermostDispatch(st: State, t: Thread, l: ListId, o: Observer, s: Sequence)
    requires Inv(st) && Enabled(st, Add(t, l, o)) && Top(StackOf(st, t)).on == Some(s)
    ensures var innermost, after := Innermost(StackOf(st, t)), AddStep(st, t, l, o);
            after.tasks == if st.policy(l) == All && innermost.Some? && innermost.value.list == l
                           then st.tasks + [Task(o, innermost.value, s, Queued)] else st.tasks
  {
    assert TlsOf(st, t) == Innermost(StackOf(st, t));
  }

  // ----- At most one delivery for each registration -----

  ghost predicate Counted(st: State)
  {
    forall o, n: Note ::
      && Count(st.tasks, IsPost(o, n)) <= Count(st.log, IsRegistration(n.list, o))
      && Count(st.tasks, IsCall(o, n)) == Count(st.log, IsDelivery(o, n))
  }

  lemma NotifyCounts(st: State, t: Thread, l: ListId, order: seq<Observer>, o: Observer, n: Note)
    requires Inv(st) && Counted(st) && Enabled(st, Notify(t, l, order))
    ensures var after := NotifyStep(st, l, order);
            && Count(after.tasks, IsPost(o, n)) <= Count(after.log, IsRegistration(n.list, o))
            && Count(after.tasks, IsCall(o, n)) == Count(after.log, IsDelivery(o, n))
  {
    var extra := Posted(st.registry, Note(l, st.notes), order);
    CountConcat(st.tasks, extra, IsPost(o, n));
    CountConcat(st.tasks, extra, IsCall(o, n));
    CountNone(extra, IsCall(o, n));
    if n == Note(l, st.notes) {
      CountNone(st.tasks, IsPost(o, n));
      CountUnique(extra, IsPost(o, n));
      if (l, o) in st.registry {
        var e := Registered(l, o, st.registry[(l, o)]);
        var i :| 0 <= i < |st.log| && st.log[i] == e;
        CountSome(st.log, i, IsRegistration(l, o));
      } else {
        CountNone(extra, IsPost(o, n));
      }
    } else {
      CountNone(extra, IsPost(o, n));
    }
  }

  /** Notify posts one task for every registered observer of the list, and none for anyone else. */
  lemma NotifyReachesEveryObserverOnce(st: State, t: Thread, l: ListId, order: seq<Observer>, o: Observer)
    requires Inv(st) && Enabled(st, Notify(t, l, order))
    ensures Count(NotifyStep(st, l, order).tasks, IsPost(o, Note(l, st.notes))) ==
            if (l, o) in st.registry then 1 else 0
  {
    var n := Note(l, st.notes);
    var extra := Posted(st.registry, n, order);
    CountConcat(st.tasks, extra, IsPost(o, n));
    CountNone(st.tasks, IsPost(o, n));
    CountUnique(extra, IsPost(o, n));
    if (l, o) in st.registry {
      var i :| 0 <= i < |order| && order[i] == o;
      CountSome(extra, i, IsPost(o, n));
    } else {
      CountNone(extra, IsPost(o, n));
    }
  }

  lemma AddCounts(st: State, t: Thread, l: ListId, o': Observer, o: Observer, n: Note)
    requires Inv(st) && Counted(st) && Enabled(st, Add(t, l, o'))
    ensures var after := AddStep(st, t, l, o');
            && Count(after.tasks, IsPost(o, n)) <= Count(after.log, IsRegistration(n.list, o))
            && Count(after.tasks, IsCall(o, n)) == Count(after.log, IsDelivery(o, n))
  {
    hide Inv, Count;
    var after := AddStep(st, t, l, o');
    if Top(StackOf(st, t)).on.Some? {
      var s, current := Top(StackOf(st, t)).on.value, TlsOf(st, t);
      CountPush(st.log, Registered(l, o', s), IsRegistration(n.list, o));
      CountPush(st.log, Registered(l, o', s), IsDelivery(o, n));
      if st.policy(l) == All && current.Some? && current.value.list == l {
        CountPush(st.tasks, Task(o', current.value, s, Queued), IsPost(o, n));
        CountPush(st.tasks, Task(o', current.value, s, Queued), IsCall(o, n));
      } else {
        assert after.tasks == st.tasks;
      }
    }
  }

  lemma TaskCounts(st: State, step: Step, o: Observer, n: Note)
    requires Inv(st) && Counted(st) && Enabled(st, step) && (step.Begin? || step.Start? || step.Remove?)
    ensures var after := Apply(st, step);
            && Count(after.tasks, IsPost(o, n)) <= Count(after.log, IsRegistration(n.list, o))
            && Count(after.tasks, IsCall(o, n)) == Count(after.log, IsDelivery(o, n))
  {
    hide Count;
    var after := Apply(st, step);
    match step
    case Begin(t, id) =>
      CountUpdate(st.tasks, id, after.tasks[id], IsPost(o, n));
      CountUpdate(st.tasks, id, after.tasks[id], IsCall(o, n));
    case Start(t) =>
      TopIsChecked(st, t);
      var id := Top(StackOf(st, t)).id;
      var e := after.log[|st.log|];
      CountUpdate(st.tasks, id, after.tasks[id], IsPost(o, n));
      CountUpdate(st.tasks, id, after.tasks[id], IsCall(o, n));
      CountPush(st.log, e, IsRegistration(n.list, o));
      CountPush(st.log, e, IsDelivery(o, n));
    case Remove(t, l, o') =>
      var e := after.log[|st.log|];
      CountPush(st.log, e, IsRegistration(n.list, o));
      CountPush(st.log, e, IsDelivery(o, n));
  }

  lemma StepKeepsCounted(st: State, step: Step)
    requires Inv(st) && Counted(st) && Enabled(st, step)
    ensures Counted(Apply(st, step))
  {
    var after := Apply(st, step);
    forall o, n: Note
      ensures Count(after.tasks, IsPost(o, n)) <= Count(after.log, IsRegistration(n.list, o))
      ensures Count(after.tasks, IsCall(o, n)) == Count(after.log, IsDelivery(o, n))
    {
      match step
      case Add(t, l, o') => AddCounts(st, t, l, o', o, n);
      case Notify(t, l, order) => NotifyCounts(st, t, l, order, o, n);
      case Begin(_, _) => TaskCounts(st, step, o, n);
      case Start(_) => TaskCounts(st, step, o, n);
      case Remove(_, _, _) => TaskCounts(st, step, o, n);
      case _ =>
    }
  }

  lemma {:induction false} RunKeepsCounted(st: State, steps: seq<Step>)
    requires Inv(st) && Counted(st) && AllEnabled(st, steps)
    ensures Counted(After(st, steps))
    decreases |steps|
  {
    if steps == [] {
    } else {
      RunKeepsCounted(st, steps[..|steps| - 1]);
      StepKeepsCounted(After(st, steps[..|steps| - 1]), steps[|steps| - 1]);
    }
  }

  /** In every run an observer gets each notification at most as often as it has registered. */
  lemma DeliveredAtMostOncePerRegistration(policy: ListId -> Policy, steps: seq<Step>, o: Observer, n: Note)
    requires AllEnabled(Initial(policy), steps)
    ensures var log := After(Initial(policy), steps).log;
            Count(log, IsDelivery(o, n)) <= Count(log, IsRegistration(n.list, o))
  {
    RunKeepsCounted(Initial(policy), steps);
    var st := After(Initial(policy), steps);
    CountLess(st.tasks, IsCall(o, n), IsPost(o, n));
  }
}
