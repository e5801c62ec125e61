/**
 The thread-safe observer list as a protocol. Registrations live in a map under a lock;
 a notification is posted as one task to the sequence of every observer; each task checks
 the map again, under the lock, before it calls the observer. Every locked section and
 every access to thread-local data is one atomic step.
 */
module ThreadSafeList {
  import opened Common

  type ListId = nat
  type Observer = nat
  type Sequence = nat
  type Thread = nat

  /** One call of Notify on a list. */
  datatype Note = Note(list: ListId, number: nat)

  /** Queued until its sequence gets to it; then checked under the lock, and either dropped or called. */
  datatype Phase = Queued | Checked(thread: Thread) | Called | Dropped

  datatype Task = Task(observer: Observer, note: Note, sequence: Sequence, phase: Phase)

  /** What a thread is doing, outermost first: code of some sequence or of none, or a notification task. */
  datatype Frame =
    | Code(on: Option<Sequence>)
    | Dispatch(on: Option<Sequence>, id: nat, note: Note, started: bool, previous: Option<Note>)

  datatype Event =
    | Registered(list: ListId, observer: Observer, sequence: Sequence)
    | Unregistered(list: ListId, observer: Observer, from: Option<Sequence>)
    | Delivered(observer: Observer, note: Note, sequence: Sequence)

  /** The tasks of one sequence that are still queued form its FIFO queue, in the order of their indices. */
  datatype State = State(
    policy: ListId -> Policy,
    registry: map<(ListId, Observer), Sequence>,
    tasks: seq<Task>,
    stacks: map<Thread, seq<Frame>>,
    tls: map<Thread, Option<Note>>,
    notes: nat,
    log: seq<Event>)

  datatype Step =
    | Enter(t: Thread, on: Option<Sequence>)
    | Leave(t: Thread)
    | Add(t: Thread, list: ListId, observer: Observer)
    | Remove(t: Thread, list: ListId, observer: Observer)
    | Notify(t: Thread, list: ListId, order: seq<Observer>)
    | Begin(t: Thread, id: nat)
    | Start(t: Thread)
    | Finish(t: Thread)

  function StackOf(st: State, t: Thread): seq<Frame>
  {
    if t in st.stacks then st.stacks[t] else []
  }

  function TlsOf(st: State, t: Thread): Option<Note>
  {
    if t in st.tls then st.tls[t] else None
  }

  function Top(stack: seq<Frame>): Frame
    requires stack != []
  {
    stack[|stack| - 1]
  }

  /** Client code is running on the thread: ordinary code, or an observer's callback. */
  predicate InClientCode(stack: seq<Frame>)
  {
    stack != [] && (Top(stack).Code? || Top(stack).started)
  }

  /** The thread can take up new work: it is idle, or client code runs a nested loop. */
  predicate CanRun(stack: seq<Frame>)
  {
    stack == [] || InClientCode(stack)
  }

  predicate Uses(stack: seq<Frame>, s: Sequence)
  {
    exists k :: 0 <= k < |stack| && stack[k].on == Some(s)
  }

  /** A sequence runs on one thread at a time. */
  ghost predicate FreeFor(st: State, t: Thread, s: Sequence)
  {
    forall t' :: t' in st.stacks && t' != t ==> !Uses(st.stacks[t'], s)
  }

  predicate HeadOfQueue(tasks: seq<Task>, id: nat)
  {
    && id < |tasks| && tasks[id].phase == Queued
    && forall j :: 0 <= j < id ==> !(tasks[j].phase == Queued && tasks[j].sequence == tasks[id].sequence)
  }

  /** The registered observers of a list, in the order in which the hash map gives them. */
  ghost predicate IsOrderOf(registry: map<(ListId, Observer), Sequence>, l: ListId, order: seq<Observer>)
  {
    && (forall i :: 0 <= i < |order| ==> (l, order[i]) in registry)
    && (forall i, j :: 0 <= i < j < |order| ==> order[i] != order[j])
    && (forall o :: (l, o) in registry ==> o in order)
  }

  function Posted(registry: map<(ListId, Observer), Sequence>, note: Note, order: seq<Observer>): (posted: seq<Task>)
    requires forall i :: 0 <= i < |order| ==> (note.list, order[i]) in registry
    ensures |posted| == |order|
    ensures forall i :: 0 <= i < |order| ==>
              posted[i] == Task(order[i], note, registry[(note.list, order[i])], Queued)
  {
    seq(|order|, i requires 0 <= i < |order| => Task(order[i], note, registry[(note.list, order[i])], Queued))
  }

  ghost predicate Enabled(st: State, step: Step)
  {
    var stack := StackOf(st, step.t);
    match step
    case Enter(t, on) => CanRun(stack) && (on.Some? ==> FreeFor(st, t, on.value))
    case Leave(t) => stack != [] && Top(stack).Code?
    case Add(t, l, o) => InClientCode(stack) && (Top(stack).on.Some? ==> (l, o) !in st.registry)
    case Remove(t, l, o) => InClientCode(stack)
    case Notify(t, l, order) => InClientCode(stack) && IsOrderOf(st.registry, l, order)
    case Begin(t, id) => CanRun(stack) && HeadOfQueue(st.tasks, id) && FreeFor(st, t, st.tasks[id].sequence)
    case Start(t) => stack != [] && Top(stack).Dispatch? && !Top(stack).started
    case Finish(t) => stack != [] && Top(stack).Dispatch? && Top(stack).started
  }

  /** AddObserver: without a sequence nothing happens; a dispatch of this list on this thread reaches the newcomer. */
  function AddStep(st: State, t: Thread, l: ListId, o: Observer): State
    requires StackOf(st, t) != []
  {
    match Top(StackOf(st, t)).on
    case None => st
    case Some(s) =>
      var current := TlsOf(st, t);
      st.(registry := st.registry[(l, o) := s],
          tasks := if st.policy(l) == All && current.Some? && current.value.list == l
                   then st.tasks + [Task(o, current.value, s, Queued)] else st.tasks,
          log := st.log + [Registered(l, o, s)])
  }

  function RemoveStep(st: State, t: Thread, l: ListId, o: Observer): State
    requires StackOf(st, t) != []
  {
    st.(registry := st.registry - {(l, o)}, log := st.log + [Unregistered(l, o, Top(StackOf(st, t)).on)])
  }

  function NotifyStep(st: State, l: ListId, order: seq<Observer>): State
    requires forall i :: 0 <= i < |order| ==> (l, order[i]) in st.registry
  {
    st.(tasks := st.tasks + Posted(st.registry, Note(l, st.notes), order), notes := st.notes + 1)
  }

  /** The first half of NotifyWrapper: the task starts and looks its observer up under the lock. */
  function BeginStep(st: State, t: Thread, id: nat): State
    requires id < |st.tasks|
  {
    var task := st.tasks[id];
    if (task.note.list, task.observer) in st.registry then
      st.(tasks := st.tasks[id := task.(phase := Checked(t))],
          stacks := st.stacks[t := StackOf(st, t) + [Dispatch(Some(task.sequence), id, task.note, false, None)]])
    else
      st.(tasks := st.tasks[id := task.(phase := Dropped)])
  }

  /** The current notification is saved and replaced, and the callback starts. */
  function StartStep(st: State, t: Thread): State
    requires StackOf(st, t) != [] && Top(StackOf(st, t)).Dispatch? && Top(StackOf(st, t)).id < |st.tasks|
  {
    var stack := StackOf(st, t);
    var frame := Top(stack);
    var task := st.tasks[frame.id];
    st.(tasks := st.tasks[frame.id := task.(phase := Called)],
        stacks := st.stacks[t := stack[..|stack| - 1] + [frame.(started := true, previous := TlsOf(st, t))]],
        tls := st.tls[t := Some(frame.note)],
        log := st.log + [Delivered(task.observer, task.note, task.sequence)])
  }

  /** The callback has returned; the saved notification is current again. */
  function FinishStep(st: State, t: Thread): State
    requires StackOf(st, t) != [] && Top(StackOf(st, t)).Dispatch?
  {
    var stack := StackOf(st, t);
    st.(stacks := st.stacks[t := stack[..|stack| - 1]], tls := st.tls[t := Top(stack).previous])
  }

  ghost function Apply(st: State, step: Step): State
    requires Inv(st) && Enabled(st, step)
  {
    match step
    case Enter(t, on) => st.(stacks := st.stacks[t := StackOf(st, t) + [Code(on)]])
    case Leave(t) => st.(stacks := st.stacks[t := StackOf(st, t)[..|StackOf(st, t)| - 1]])
    case Add(t, l, o) => AddStep(st, t, l, o)
    case Remove(t, l, o) => RemoveStep(st, t, l, o)
    case Notify(_, l, order) => NotifyStep(st, l, order)
    case Begin(t, id) => BeginStep(st, t, id)
    case Start(t) =>
      assert FramesMatch(st.tasks, StackOf(st, t), t);
      StartStep(st, t)
    case Finish(t) => FinishStep(st, t)
  }

  // ----- The invariant -----

  /** The note of the innermost dispatch whose callback is running. */
  function Innermost(stack: seq<Frame>): Option<Note>
  {
    if stack == [] then None
    else if Top(stack).Dispatch? && Top(stack).started then Some(Top(stack).note)
    else Innermost(stack[..|stack| - 1])
  }

  /** Every dispatch frame stands for a task in the right phase; only the top one may not have started. */
  ghost predicate FramesMatch(tasks: seq<Task>, stack: seq<Frame>, t: Thread)
  {
    forall k :: 0 <= k < |stack| && stack[k].Dispatch? ==>
                  && stack[k].id < |tasks|
                  && tasks[stack[k].id].note == stack[k].note
                  && stack[k].on == Some(tasks[stack[k].id].sequence)
                  && (if stack[k].started then tasks[stack[k].id].phase == Called
                      else tasks[stack[k].id].phase == Checked(t) && k == |stack| - 1)
  }

  /** Every running callback has saved the notification that was current before it. */
  ghost predicate Nested(stack: seq<Frame>)
  {
    forall k :: 0 <= k < |stack| && stack[k].Dispatch? && stack[k].started ==>
                  stack[k].previous == Innermost(stack[..k])
  }

  /** A checked task is the top frame of its thread. */
  ghost predicate CheckedOnTop(st: State)
  {
    forall id :: 0 <= id < |st.tasks| && st.tasks[id].phase.Checked? ==>
                   var stack := StackOf(st, st.tasks[id].phase.thread);
                   stack != [] && Top(stack).Dispatch? && Top(stack).id == id && !Top(stack).started
  }

  ghost predicate Exclusive(st: State)
  {
    forall t, t', s :: t in st.stacks && t' in st.stacks && t != t' && Uses(st.stacks[t], s) ==> !Uses(st.stacks[t'], s)
  }

  /** Observers are registered, and tasks posted, for sequences from which they registered. */
  ghost predicate Traced(st: State)
  {
    && (forall key :: key in st.registry ==> Registered(key.0, key.1, st.registry[key]) in st.log)
    && (forall id :: 0 <= id < |st.tasks| ==>
          var task := st.tasks[id];
          task.note.number < st.notes && Registered(task.note.list, task.observer, task.sequence) in st.log)
  }

  /** Each sequence takes its tasks in the order in which they were posted. */
  ghost predicate InOrder(tasks: seq<Task>)
  {
    forall i, j :: 0 <= i < j < |tasks| && tasks[i].sequence == tasks[j].sequence && tasks[i].phase == Queued ==>
                     tasks[j].phase == Queued
  }

  ghost predicate Inv(st: State)
  {
    && (forall t :: t in st.stacks ==> FramesMatch(st.tasks, st.stacks[t], t) && Nested(st.stacks[t]))
    && (forall t :: TlsOf(st, t) == Innermost(StackOf(st, t)))
    && CheckedOnTop(st)
    && Exclusive(st)
    && Traced(st)
    && InOrder(st.tasks)
  }

  // ----- Every step keeps the invariant -----

  lemma FramesStay(tasks: seq<Task>, extra: seq<Task>, stack: seq<Frame>, t: Thread)
    requires FramesMatch(tasks, stack, t)
    ensures FramesMatch(tasks + extra, stack, t)
  {
  }

  /** Posting queued tasks behind all the others. */
  lemma PostingKeeps(st: State, extra: seq<Task>, after: State)
    requires Inv(st)
    requires forall i :: 0 <= i < |extra| ==> extra[i].phase == Queued
    requires after.stacks == st.stacks && after.tls == st.tls && after.tasks == st.tasks + extra
    ensures forall t :: t in after.stacks ==> FramesMatch(after.tasks, after.stacks[t], t) && Nested(after.stacks[t])
    ensures forall t :: TlsOf(after, t) == Innermost(StackOf(after, t))
    ensures CheckedOnTop(after) && Exclusive(after) && InOrder(after.tasks)
  {
    forall t | t in after.stacks
      ensures FramesMatch(after.tasks, after.stacks[t], t) && Nested(after.stacks[t])
    {
      FramesStay(st.tasks, extra, st.stacks[t], t);
    }
    forall t
      ensures TlsOf(after, t) == Innermost(StackOf(after, t))
    {
      assert TlsOf(st, t) == Innermost(StackOf(st, t));
    }
    assert forall k :: |st.tasks| <= k < |after.tasks| ==> after.tasks[k] == extra[k - |st.tasks|];
    assert forall k :: 0 <= k < |after.tasks| && after.tasks[k].phase.Checked? ==> k < |st.tasks|;
    forall i, j |
      0 <= i < j < |after.tasks| && after.tasks[i].sequence == after.tasks[j].sequence && after.tasks[i].phase == Queued
      ensures after.tasks[j].phase == Queued
    {
      if j < |st.tasks| {
        assert st.tasks[i].phase == Queued;
      }
    }
  }

  lemma AddKeeps(st: State, t: Thread, l: ListId, o: Observer)
    requires Inv(st) && Enabled(st, Add(t, l, o))
    ensures Inv(AddStep(st, t, l, o))
  {
    var after := AddStep(st, t, l, o);
    if Top(StackOf(st, t)).on.Some? {
      var extra := after.tasks[|st.tasks|..];
      assert after.tasks == st.tasks + extra;
      PostingKeeps(st, extra, after);
      var e := Registered(l, o, Top(StackOf(st, t)).on.value);
      assert after.log[|st.log|] == e;
      forall id | 0 <= id < |after.tasks|
        ensures var task := after.tasks[id];
                task.note.number < after.notes && Registered(task.note.list, task.observer, task.sequence) in after.log
      {
        if id >= |st.tasks| {
          NoteOfTls(st, t);
        }
      }
    }
  }

  /** The current notification of a thread belongs to a task. */
  lemma NoteOfTls(st: State, t: Thread)
    requires Inv(st) && TlsOf(st, t).Some?
    ensures TlsOf(st, t).value.number < st.notes
  {
    InnermostIsTask(st.tasks, StackOf(st, t), t);
  }

  lemma {:induction false} InnermostIsTask(tasks: seq<Task>, stack: seq<Frame>, t: Thread)
    requires FramesMatch(tasks, stack, t) && Innermost(stack).Some?
    ensures exists k :: 0 <= k < |stack| && stack[k].Dispatch? && stack[k].id < |tasks| &&
                        tasks[stack[k].id].note == Innermost(stack).value
    decreases |stack|
  {
    if !(Top(stack).Dispatch? && Top(stack).started) {
      var rest := stack[..|stack| - 1];
      assert FramesMatch(tasks, rest, t) by {
        forall k | 0 <= k < |rest| && rest[k].Dispatch?
          ensures stack[k].started
        {
          assert rest[k] == stack[k];
        }
      }
      InnermostIsTask(tasks, rest, t);
      var k :| 0 <= k < |rest| && rest[k].Dispatch? && rest[k].id < |tasks| &&
        tasks[rest[k].id].note == Innermost(rest).value;
      assert stack[k] == rest[k];
    }
  }

  lemma RemoveKeeps(st: State, t: Thread, l: ListId, o: Observer)
    requires Inv(st) && Enabled(st, Remove(t, l, o))
    ensures Inv(RemoveStep(st, t, l, o))
  {
    var after := RemoveStep(st, t, l, o);
    assert after.tasks == st.tasks + [];
    PostingKeeps(st, [], after);
  }

  lemma NotifyKeeps(st: State, t: Thread, l: ListId, order: seq<Observer>)
    requires Inv(st) && Enabled(st, Notify(t, l, order))
    ensures Inv(NotifyStep(st, l, order))
  {
    var after, extra := NotifyStep(st, l, order), Posted(st.registry, Note(l, st.notes), order);
    PostingKeeps(st, extra, after);
    forall id | 0 <= id < |after.tasks|
      ensures var task := after.tasks[id];
              task.note.number < after.notes && Registered(task.note.list, task.observer, task.sequence) in after.log
    {
      if id >= |st.tasks| {
        assert after.tasks[id] == extra[id - |st.tasks|];
        assert (l, order[id - |st.tasks|]) in st.registry;
      }
    }
  }

  /** A frame pushed on a stack: uses of the other frames stay, and its sequence is added. */
  lemma UsesPush(stack: seq<Frame>, f: Frame, s: Sequence)
    ensures Uses(stack + [f], s) <==> Uses(stack, s) || f.on == Some(s)
  {
    if Uses(stack, s) {
      var k :| 0 <= k < |stack| && stack[k].on == Some(s);
      assert (stack + [f])[k].on == Some(s);
    }
    if f.on == Some(s) {
      assert (stack + [f])[|stack|].on == Some(s);
    }
  }

  lemma UsesPop(stack: seq<Frame>, s: Sequence)
    requires stack != []
    ensures Uses(stack[..|stack| - 1], s) ==> Uses(stack, s)
  {
    UsesPush(stack[..|stack| - 1], Top(stack), s);
    assert stack == stack[..|stack| - 1] + [Top(stack)];
  }

  lemma ExclusivePush(st: State, t: Thread, f: Frame)
    requires Exclusive(st) && (f.on.Some? ==> FreeFor(st, t, f.on.value))
    ensures Exclusive(st.(stacks := st.stacks[t := StackOf(st, t) + [f]]))
  {
    var after := st.(stacks := st.stacks[t := StackOf(st, t) + [f]]);
    forall a, b, s | a in after.stacks && b in after.stacks && a != b && Uses(after.stacks[a], s)
      ensures !Uses(after.stacks[b], s)
    {
      UsesPush(StackOf(st, t), f, s);
    }
  }

  lemma ExclusiveShrink(st: State, t: Thread, stack: seq<Frame>)
    requires Exclusive(st) && forall s :: Uses(stack, s) ==> Uses(StackOf(st, t), s)
    ensures Exclusive(st.(stacks := st.stacks[t := stack]))
  {
    var after := st.(stacks := st.stacks[t := stack]);
    forall a, b, s | a in after.stacks && b in after.stacks && a != b && Uses(after.stacks[a], s)
      ensures !Uses(after.stacks[b], s)
    {
    }
  }

  lemma EnterKeeps(st: State, t: Thread, on: Option<Sequence>)
    requires Inv(st) && Enabled(st, Enter(t, on))
    ensures Inv(Apply(st, Enter(t, on)))
  {
    var stack, f, after := StackOf(st, t), Code(on), Apply(st, Enter(t, on));
    ExclusivePush(st, t, f);
    PushKeeps(st.tasks, stack, t, f);
    StacksKeep(st, t, stack + [f], after);
  }

  /** A stack under a new frame of client code or of a task that has not started. */
  lemma PushKeeps(tasks: seq<Task>, stack: seq<Frame>, t: Thread, f: Frame)
    requires FramesMatch(tasks, stack, t) && Nested(stack) && CanRun(stack)
    requires f.Dispatch? ==> FramesMatch(tasks, [f], t) && !f.started
    ensures FramesMatch(tasks, stack + [f], t) && Nested(stack + [f])
    ensures Innermost(stack + [f]) == Innermost(stack)
  {
    var longer := stack + [f];
    assert longer[..|stack|] == stack;
    forall k | 0 <= k < |stack| && stack[k].Dispatch? && stack[k].started
      ensures longer[k].previous == Innermost(longer[..k])
    {
      assert longer[..k] == stack[..k];
    }
    assert f.Dispatch? ==> [f][0] == f;
  }

  /** Only the stack of t has changed, and not the note of its innermost dispatch. */
  lemma StacksKeep(st: State, t: Thread, stack: seq<Frame>, after: State)
    requires Inv(st) && after == st.(stacks := st.stacks[t := stack])
    requires FramesMatch(st.tasks, stack, t) && Nested(stack) && Exclusive(after)
    requires Innermost(stack) == Innermost(StackOf(st, t)) && CanRun(StackOf(st, t))
    ensures Inv(after)
  {
    forall t'
      ensures TlsOf(after, t') == Innermost(StackOf(after, t'))
    {
      assert TlsOf(st, t') == Innermost(StackOf(st, t'));
    }
  }

  lemma PopKeeps(tasks: seq<Task>, stack: seq<Frame>, t: Thread)
    requires FramesMatch(tasks, stack, t) && Nested(stack) && InClientCode(stack)
    ensures FramesMatch(tasks, stack[..|stack| - 1], t) && Nested(stack[..|stack| - 1])
  {
    var rest := stack[..|stack| - 1];
    forall k | 0 <= k < |rest| && rest[k].Dispatch?
      ensures rest[k].started && rest[k].previous == Innermost(rest[..k])
    {
      assert rest[k] == stack[k] && rest[..k] == stack[..k];
    }
  }

  lemma LeaveKeeps(st: State, t: Thread)
    requires Inv(st) && Enabled(st, Leave(t))
    ensures Inv(Apply(st, Leave(t)))
  {
    var stack, after := StackOf(st, t), Apply(st, Leave(t));
    PopKeeps(st.tasks, stack, t);
    forall s
      ensures Uses(stack[..|stack| - 1], s) ==> Uses(stack, s)
    {
      UsesPop(stack, s);
    }
    ExclusiveShrink(st, t, stack[..|stack| - 1]);
    StacksKeep(st, t, stack[..|stack| - 1], after);
  }

  lemma FinishKeeps(st: State, t: Thread)
    requires Inv(st) && Enabled(st, Finish(t))
    ensures Inv(FinishStep(st, t))
  {
    var stack, after := StackOf(st, t), FinishStep(st, t);
    PopKeeps(st.tasks, stack, t);
    forall s
      ensures Uses(stack[..|stack| - 1], s) ==> Uses(stack, s)
    {
      UsesPop(stack, s);
    }
    ExclusiveShrink(st, t, stack[..|stack| - 1]);
    forall t'
      ensures TlsOf(after, t') == Innermost(StackOf(after, t'))
    {
      assert TlsOf(st, t') == Innermost(StackOf(st, t'));
    }
  }

  /** A queued task has no frame. */
  lemma FramesOfOthers(tasks: seq<Task>, stack: seq<Frame>, t: Thread, id: nat, phase: Phase)
    requires FramesMatch(tasks, stack, t) && id < |tasks|
    requires forall k :: 0 <= k < |stack| && stack[k].Dispatch? ==> stack[k].id != id
    ensures FramesMatch(tasks[id := tasks[id].(phase := phase)], stack, t)
  {
  }

  lemma PhaseKeepsTraces(st: State, id: nat, phase: Phase)
    requires Traced(st) && id < |st.tasks|
    ensures Traced(st.(tasks := st.tasks[id := st.tasks[id].(phase := phase)]))
  {
    var after := st.(tasks := st.tasks[id := st.tasks[id].(phase := phase)]);
    forall k | 0 <= k < |after.tasks|
      ensures var task := after.tasks[k];
              task.note.number < after.notes && Registered(task.note.list, task.observer, task.sequence) in after.log
    {
      assert after.tasks[k].note == st.tasks[k].note;
    }
  }

  /** Taking the head of a queue keeps every queue in order. */
  lemma TakingKeepsOrder(tasks: seq<Task>, id: nat, phase: Phase)
    requires InOrder(tasks) && HeadOfQueue(tasks, id)
    ensures InOrder(tasks[id := tasks[id].(phase := phase)])
  {
    var after := tasks[id := tasks[id].(phase := phase)];
    forall i, j | 0 <= i < j < |after| && after[i].sequence == after[j].sequence && after[i].phase == Queued
      ensures after[j].phase == Queued
    {
      assert i != id || phase == Queued;
      assert tasks[i].phase == Queued && tasks[i].sequence == tasks[j].sequence;
    }
  }

  lemma BeginKeeps(st: State, t: Thread, id: nat)
    requires Inv(st) && Enabled(st, Begin(t, id))
    ensures Inv(BeginStep(st, t, id))
  {
    hide Nested, Innermost, Uses, InOrder, CheckedOnTop;
    var task, after := st.tasks[id], BeginStep(st, t, id);
    var phase := after.tasks[id].phase;
    PhaseKeepsTraces(st, id, phase);
    TakingKeepsOrder(st.tasks, id, phase);
    forall t' | t' in st.stacks
      ensures FramesMatch(after.tasks, st.stacks[t'], t')
    {
      FramesOfOthers(st.tasks, st.stacks[t'], t', id, phase);
    }
    var taken := st.(tasks := after.tasks);
    if phase == Dropped {
      DroppedKeeps(st, taken, id);
    } else {
      var f := Dispatch(Some(task.sequence), id, task.note, false, None);
      assert after == taken.(stacks := taken.stacks[t := StackOf(taken, t) + [f]]);
      ExclusivePush(taken, t, f);
      assert FramesMatch(after.tasks, StackOf(st, t), t);
      PushKeeps(after.tasks, StackOf(st, t), t, f);
      CheckedKeeps(st, after, t, id, f);
    }
  }

  lemma DroppedKeeps(st: State, after: State, id: nat)
    requires Inv(st) && HeadOfQueue(st.tasks, id)
    requires after == st.(tasks := st.tasks[id := st.tasks[id].(phase := Dropped)])
    requires forall t :: t in st.stacks ==> FramesMatch(after.tasks, st.stacks[t], t)
    requires Traced(after) && InOrder(after.tasks)
    ensures Inv(after)
  {
    forall t
      ensures TlsOf(after, t) == Innermost(StackOf(after, t))
    {
      assert TlsOf(st, t) == Innermost(StackOf(st, t));
    }
    forall k | 0 <= k < |after.tasks| && after.tasks[k].phase.Checked?
      ensures var stack := StackOf(after, after.tasks[k].phase.thread);
              stack != [] && Top(stack).Dispatch? && Top(stack).id == k && !Top(stack).started
    {
      assert st.tasks[k].phase.Checked?;
    }
  }

  lemma CheckedKeeps(st: State, after: State, t: Thread, id: nat, f: Frame)
    requires Inv(st) && HeadOfQueue(st.tasks, id) && CanRun(StackOf(st, t))
    requires f == Dispatch(Some(st.tasks[id].sequence), id, st.tasks[id].note, false, None)
    requires after == st.(tasks := st.tasks[id := st.tasks[id].(phase := Checked(t))],
                          stacks := st.stacks[t := StackOf(st, t) + [f]])
    requires forall t' :: t' in after.stacks ==> FramesMatch(after.tasks, after.stacks[t'], t')
    requires Nested(StackOf(st, t) + [f]) && Innermost(StackOf(st, t) + [f]) == Innermost(StackOf(st, t))
    requires Exclusive(after) && Traced(after) && InOrder(after.tasks)
    ensures Inv(after)
  {
    forall t'
      ensures TlsOf(after, t') == Innermost(StackOf(after, t'))
    {
      assert TlsOf(st, t') == Innermost(StackOf(st, t'));
    }
    forall k | 0 <= k < |after.tasks| && after.tasks[k].phase.Checked?
      ensures var stack := StackOf(after, after.tasks[k].phase.thread);
              stack != [] && Top(stack).Dispatch? && Top(stack).id == k && !Top(stack).started
    {
      if k != id {
        assert st.tasks[k].phase.Checked?;
      }
    }
  }

  lemma TopIsChecked(st: State, t: Thread)
    requires Inv(st) && Enabled(st, Start(t))
    ensures var f := Top(StackOf(st, t));
            && f.id < |st.tasks| && st.tasks[f.id].phase == Checked(t)
            && st.tasks[f.id].note == f.note && f.on == Some(st.tasks[f.id].sequence)
  {
    var stack := StackOf(st, t);
    assert FramesMatch(st.tasks, stack, t);
    assert stack[|stack| - 1].Dispatch?;
  }

  lemma StartKeeps(st: State, t: Thread)
    requires Inv(st) && Enabled(st, Start(t))
    ensures Top(StackOf(st, t)).id < |st.tasks| && Inv(StartStep(st, t))
  {
    hide Exclusive, Traced, InOrder, CheckedOnTop, Nested, FramesMatch, Innermost;
    TopIsChecked(st, t);
    var after := StartStep(st, t);
    StartedFrames(st, t, after);
    StartedTls(st, t, after);
    StartedExclusive(st, t, after);
    StartedChecked(st, t, after);
    StartedTraces(st, t, after);
    StartedOrder(st.tasks, Top(StackOf(st, t)).id);
  }

  lemma StartedTls(st: State, t: Thread, after: State)
    requires Inv(st) && Enabled(st, Start(t)) && Top(StackOf(st, t)).id < |st.tasks| && after == StartStep(st, t)
    ensures FramesMatch(after.tasks, after.stacks[t], t) && Nested(after.stacks[t])
    ensures forall t' :: TlsOf(after, t') == Innermost(StackOf(after, t'))
  {
    var stack := StackOf(st, t);
    assert TlsOf(st, t) == Innermost(stack) == Innermost(stack[..|stack| - 1]);
    StartedStack(st.tasks, stack, t, TlsOf(st, t));
    forall t'
      ensures TlsOf(after, t') == Innermost(StackOf(after, t'))
    {
      assert TlsOf(st, t') == Innermost(StackOf(st, t'));
    }
  }

  lemma StartedExclusive(st: State, t: Thread, after: State)
    requires Exclusive(st) && Enabled(st, Start(t)) && Top(StackOf(st, t)).id < |st.tasks| && after == StartStep(st, t)
    ensures Exclusive(after)
  {
    var stack := StackOf(st, t);
    var rest, f := stack[..|stack| - 1], Top(stack);
    var started := f.(started := true, previous := TlsOf(st, t));
    forall s
      ensures Uses(rest + [started], s) ==> Uses(stack, s)
    {
      UsesPush(rest, started, s);
      UsesPush(rest, f, s);
      assert stack == rest + [f];
    }
    ExclusiveShrink(st, t, rest + [started]);
  }

  lemma StartedTraces(st: State, t: Thread, after: State)
    requires Traced(st) && Enabled(st, Start(t)) && Top(StackOf(st, t)).id < |st.tasks| && after == StartStep(st, t)
    ensures Traced(after)
  {
    PhaseKeepsTraces(st, Top(StackOf(st, t)).id, Called);
    forall key | key in after.registry
      ensures Registered(key.0, key.1, after.registry[key]) in after.log
    {
      assert Registered(key.0, key.1, st.registry[key]) in st.log;
    }
  }

  lemma StartedOrder(tasks: seq<Task>, id: nat)
    requires InOrder(tasks) && id < |tasks| && tasks[id].phase.Checked?
    ensures InOrder(tasks[id := tasks[id].(phase := Called)])
  {
    var after := tasks[id := tasks[id].(phase := Called)];
    forall i, j | 0 <= i < j < |after| && after[i].sequence == after[j].sequence && after[i].phase == Queued
      ensures after[j].phase == Queued
    {
      assert tasks[i].phase == Queued;
    }
  }

  lemma StartedChecked(st: State, t: Thread, after: State)
    requires CheckedOnTop(st) && Enabled(st, Start(t)) && Top(StackOf(st, t)).id < |st.tasks| &&
             after == StartStep(st, t)
    ensures CheckedOnTop(after)
  {
    var id := Top(StackOf(st, t)).id;
    forall k | 0 <= k < |after.tasks| && after.tasks[k].phase.Checked?
      ensures var top := StackOf(after, after.tasks[k].phase.thread);
              top != [] && Top(top).Dispatch? && Top(top).id == k && !Top(top).started
    {
      assert k != id && st.tasks[k].phase.Checked?;
    }
  }

  lemma StartedFrames(st: State, t: Thread, after: State)
    requires Inv(st) && Enabled(st, Start(t)) && Top(StackOf(st, t)).id < |st.tasks| && after == StartStep(st, t)
    ensures forall t' :: t' in st.stacks && t' != t ==>
            FramesMatch(after.tasks, st.stacks[t'], t') && Nested(st.stacks[t'])
  {
    var stack := StackOf(st, t);
    var id := Top(stack).id;
    assert FramesMatch(st.tasks, stack, t);
    assert stack[|stack| - 1].Dispatch?;
    assert st.tasks[id].phase == Checked(t);
    forall t' | t' in st.stacks && t' != t
      ensures FramesMatch(after.tasks, st.stacks[t'], t') && Nested(st.stacks[t'])
    {
      assert FramesMatch(st.tasks, st.stacks[t'], t');
      FramesOfOthers(st.tasks, st.stacks[t'], t', id, Called);
    }
  }

  lemma StartedStack(tasks: seq<Task>, stack: seq<Frame>, t: Thread, previous: Option<Note>)
    requires FramesMatch(tasks, stack, t) && Nested(stack)
    requires stack != [] && Top(stack).Dispatch? && !Top(stack).started && Top(stack).id < |tasks|
    requires previous == Innermost(stack[..|stack| - 1])
    ensures var id := Top(stack).id;
            var started := stack[..|stack| - 1] + [Top(stack).(started := true, previous := previous)];
            && FramesMatch(tasks[id := tasks[id].(phase := Called)], started, t)
            && Nested(started)
            && Innermost(started) == Some(Top(stack).note)
  {
    var n, f := |stack| - 1, Top(stack);
    var started := stack[..n] + [f.(started := true, previous := previous)];
    assert stack[n].Dispatch? && tasks[f.id].phase == Checked(t);
    assert started[..n] == stack[..n];
    forall k | 0 <= k < n && started[k].Dispatch?
      ensures started[k] == stack[k] && started[k].id != f.id && started[k].started &&
              started[k].previous == Innermost(started[..k])
    {
      assert started[k] == stack[k] && started[..k] == stack[..k];
    }
  }

  /** Every step of every thread keeps the invariant. */
  lemma StepKeepsInv(st: State, step: Step)
    requires Inv(st) && Enabled(st, step)
    ensures Inv(Apply(st, step))
  {
    hide Inv;
    match step
    case Enter(t, on) => EnterKeeps(st, t, on);
    case Leave(t) => LeaveKeeps(st, t);
    case Add(t, l, o) => AddKeeps(st, t, l, o);
    case Remove(t, l, o) => RemoveKeeps(st, t, l, o);
    case Notify(t, l, order) => NotifyKeeps(st, t, l, order);
    case Begin(t, id) => BeginKeeps(st, t, id);
    case Start(t) => StartKeeps(st, t);
    case Finish(t) => FinishKeeps(st, t);
  }

  // ----- The methods -----

  /** The lists of a process with its threads and task queues. Each method is one atomic step of a thread. */
  class Process {
    const policy: ListId -> Policy
    var observers: map<(ListId, Observer), Sequence>
    var tasks: seq<Task>
    var stacks: map<Thread, seq<Frame>>
    var currentNotification: map<Thread, Option<Note>>
    var notes: nat
    ghost var log: seq<Event>

    ghost function Snapshot(): State
      reads this
    {
      State(policy, observers, tasks, stacks, currentNotification, notes, log)
    }

    constructor (policy: ListId -> Policy)
      ensures Snapshot() == State(policy, map[], [], map[], map[], 0, []) && Inv(Snapshot())
    {
      this.policy := policy;
      observers, tasks, stacks, currentNotification, notes, log := map[], [], map[], map[], 0, [];
    }

    function Stack(t: Thread): (stack: seq<Frame>)
      reads this
      ensures stack == StackOf(Snapshot(), t)
    {
      if t in stacks then stacks[t] else []
    }

    function Current(t: Thread): (note: Option<Note>)
      reads this
      ensures note == TlsOf(Snapshot(), t)
    {
      if t in currentNotification then currentNotification[t] else None
    }

    method AddObserver(t: Thread, l: ListId, o: Observer)
      requires Inv(Snapshot()) && Enabled(Snapshot(), Add(t, l, o))
      modifies this
      ensures Inv(Snapshot()) && Snapshot() == AddStep(old(Snapshot()), t, l, o)
    {
      hide Inv;
      AddKeeps(Snapshot(), t, l, o);
      var on := Top(Stack(t)).on;
      if on.None? {
        return;
      }
      observers := observers[(l, o) := on.value];
      log := log + [Registered(l, o, on.value)];
      if policy(l) == All {
        var current := Current(t);
        if current.Some? && current.value.list == l {
          tasks := tasks + [Task(o, current.value, on.value, Queued)];
        }
      }
    }

    method RemoveObserver(t: Thread, l: ListId, o: Observer)
      requires Inv(Snapshot()) && Enabled(Snapshot(), Remove(t, l, o))
      modifies this
      ensures Inv(Snapshot()) && Snapshot() == RemoveStep(old(Snapshot()), t, l, o)
      ensures observers == old(observers) - {(l, o)} && tasks == old(tasks)
    {
      hide Inv;
      RemoveKeeps(Snapshot(), t, l, o);
      observers := observers - {(l, o)};
      log := log + [Unregistered(l, o, Top(Stack(t)).on)];
    }

    /** Posts one task for every registered observer, in an order of the map's choice. */
    method Notify(t: Thread, l: ListId) returns (ghost order: seq<Observer>)
      requires Inv(Snapshot()) && InClientCode(Stack(t))
      modifies this
      ensures Inv(Snapshot())
      ensures IsOrderOf(old(observers), l, order) && Snapshot() == NotifyStep(old(Snapshot()), l, order)
      ensures observers == old(observers) && old(tasks) <= tasks
    {
      hide Inv;
      var note := Note(l, notes);
      order := PostAll(l, note);
      notes := notes + 1;
      NotifyKeeps(old(Snapshot()), t, l, order);
    }

    method PostAll(l: ListId, note: Note) returns (ghost order: seq<Observer>)
      requires note.list == l
      modifies this`tasks
      ensures IsOrderOf(observers, l, order) && tasks == old(tasks) + Posted(observers, note, order)
    {
      order := [];
      var remaining := set key | key in observers && key.0 == l;
      while remaining != {}
        invariant forall key :: key in remaining ==> key in observers && key.0 == l && key.1 !in order
        invariant forall i :: 0 <= i < |order| ==> (l, order[i]) in observers
        invariant forall i, j :: 0 <= i < j < |order| ==> order[i] != order[j]
        invariant forall o :: (l, o) in observers ==> (l, o) in remaining || o in order
        invariant tasks == old(tasks) + Posted(observers, note, order)
        decreases |remaining|
      {
        var key :| key in remaining;
        tasks := tasks + [Task(key.1, note, observers[key], Queued)];
        order := order + [key.1];
        remaining := remaining - {key};
        assert key == (l, key.1);
      }
    }

    /** NotifyWrapper up to the end of its locked section. */
    method CheckRegistration(t: Thread, id: nat)
      requires Inv(Snapshot()) && Enabled(Snapshot(), Begin(t, id))
      modifies this
      ensures Inv(Snapshot()) && Snapshot() == BeginStep(old(Snapshot()), t, id)
    {
      hide Inv;
      BeginKeeps(Snapshot(), t, id);
      var task := tasks[id];
      if (task.note.list, task.observer) !in observers {
        tasks := tasks[id := task.(phase := Dropped)];
        return;
      }
      stacks := stacks[t := Stack(t) + [Dispatch(Some(task.sequence), id, task.note, false, None)]];
      tasks := tasks[id := task.(phase := Checked(t))];
    }

    /** NotifyWrapper from there to the start of the callback. */
    method StartCallback(t: Thread)
      requires Inv(Snapshot()) && Enabled(Snapshot(), Start(t))
      modifies this
      ensures Inv(Snapshot()) && Top(StackOf(old(Snapshot()), t)).id < |old(tasks)|
      ensures Snapshot() == StartStep(old(Snapshot()), t)
    {
      hide Inv;
      StartKeeps(Snapshot(), t);
      var stack := Stack(t);
      var frame := Top(stack);
      var task := tasks[frame.id];
      var previousNotification := Current(t);
      currentNotification := currentNotification[t := Some(frame.note)];
      stacks := stacks[t := stack[..|stack| - 1] + [frame.(started := true, previous := previousNotification)]];
      tasks := tasks[frame.id := task.(phase := Called)];
      log := log + [Delivered(task.observer, task.note, task.sequence)];
    }

    /** NotifyWrapper after the callback has returned. */
    method FinishCallback(t: Thread)
      requires Inv(Snapshot()) && Enabled(Snapshot(), Finish(t))
      modifies this
      ensures Inv(Snapshot()) && Snapshot() == FinishStep(old(Snapshot()), t)
    {
      hide Inv;
      FinishKeeps(Snapshot(), t);
      var stack := Stack(t);
      currentNotification := currentNotification[t := Top(stack).previous];
      stacks := stacks[t := stack[..|stack| - 1]];
    }
  }
}
