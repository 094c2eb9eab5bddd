/**
 The round-robin scheduler (kernel/Task.cpp): an atomic fork and an atomic switch over a
 linked ready queue.  `State` and its two steps say what the methods do to the queue; the
 lemmas are about whole runs of forks and switches.
 */
module Tasks {
  import opened Options

  const PIDS: nat := 0x1_0000_0000

  datatype Registers = Registers(eip: nat, esp: nat, ebp: nat)

  datatype TaskValue = TaskValue(id: nat, regs: Registers, directory: nat)

  datatype State = State(queue: seq<TaskValue>, current: nat, nextPid: nat, directory: nat)

  datatype Event = Fork(regs: Registers, clone: nat) | Switch(regs: Registers)

  // ----- The two steps

  function Forked(s: State, regs: Registers, clone: nat): State {
    s.(queue := s.queue + [TaskValue(s.nextPid, regs, clone)], nextPid := (s.nextPid + 1) % PIDS)
  }

  /** The position after `i`, going round. */
  function Next(i: nat, n: nat): nat {
    if i + 1 < n then i + 1 else 0
  }

  /** Save the registers of the current task, advance, load the next task's directory. */
  function Switched(s: State, regs: Registers): State
    requires s.current < |s.queue|
  {
    var queue := s.queue[s.current := s.queue[s.current].(regs := regs)];
    var next := Next(s.current, |queue|);
    s.(queue := queue, current := next, directory := queue[next].directory)
  }

  function Step(s: State, e: Event): State
    requires s.current < |s.queue|
  {
    match e
    case Fork(regs, clone) => Forked(s, regs, clone)
    case Switch(regs) => Switched(s, regs)
  }

  function Run(s: State, es: seq<Event>): (t: State)
    requires s.current < |s.queue|
    ensures t.current < |t.queue| && |s.queue| <= |t.queue|
    decreases es
  {
    if es == [] then s else Run(Step(s, es[0]), es[1..])
  }

  function Initial(directory: nat): State {
    State([TaskValue(1, Registers(0, 0, 0), directory)], 0, 2, directory)
  }

  // ----- What every run keeps

  /** The process number of the task created as number `i`. */
  function Pid(i: nat): nat {
    (i + 1) % PIDS
  }

  predicate Sound(s: State) {
    && s.current < |s.queue|
    && (forall i :: 0 <= i < |s.queue| ==> s.queue[i].id == Pid(i))
    && s.nextPid == Pid(|s.queue|)
    && s.directory == s.queue[s.current].directory
  }

  lemma {:induction false} RunKeepsSound(s: State, es: seq<Event>)
    requires Sound(s)
    ensures Sound(Run(s, es))
    decreases es
  {
    if es != [] {
      assert Pid(|s.queue| + 1) == (Pid(|s.queue|) + 1) % PIDS;
      assert Sound(Step(s, es[0]));
      RunKeepsSound(Step(s, es[0]), es[1..]);
    }
  }

  lemma ReachableSound(directory: nat, es: seq<Event>)
    ensures Sound(Run(Initial(directory), es))
  {
    RunKeepsSound(Initial(directory), es);
  }

  /** Process numbers are unique exactly as long as the 32-bit counter has not wrapped. */
  lemma PidsExact(s: State)
    requires Sound(s)
    ensures (forall i, j :: 0 <= i < j < |s.queue| ==> s.queue[i].id != s.queue[j].id) <==> |s.queue| <= PIDS
  {
    if |s.queue| > PIDS {
      assert s.queue[0].id == Pid(0) == Pid(PIDS) == s.queue[PIDS].id;
    } else {
      forall i, j | 0 <= i < j < |s.queue| ensures s.queue[i].id != s.queue[j].id {
        PidsDiffer(i, j);
      }
    }
  }

  lemma PidsDiffer(i: nat, j: nat)
    requires i < j < PIDS
    ensures Pid(i) != Pid(j)
  {
  }

  // ----- Contexts

  /** The registers last saved for task `i` in a run from the start: at its fork or its last switch. */
  function LastSaved(directory: nat, es: seq<Event>, i: nat): Option<Registers> {
    if es == [] then None
    else
      var before := es[..|es| - 1];
      var s := Run(Initial(directory), before);
      match es[|es| - 1]
      case Fork(regs, _) => if i == |s.queue| then Some(regs) else LastSaved(directory, before, i)
      case Switch(regs) => if i == s.current then Some(regs) else LastSaved(directory, before, i)
  }

  lemma {:induction false} RunSplit(s: State, es: seq<Event>, e: Event)
    requires s.current < |s.queue|
    ensures Run(s, es + [e]) == Step(Run(s, es), e)
    decreases es
  {
    if es == [] {
      assert es + [e] == [e] && [e][1..] == [];
    } else {
      assert (es + [e])[1..] == es[1..] + [e];
      RunSplit(Step(s, es[0]), es[1..], e);
    }
  }

  /** Every task but the current one has a saved context, and the queue holds it. */
  lemma {:induction false} ContextsKept(directory: nat, es: seq<Event>, i: nat)
    ensures var s := Run(Initial(directory), es);
            i < |s.queue| && i != s.current ==>
              LastSaved(directory, es, i) == Some(s.queue[i].regs)
  {
    if es != [] {
      var before, e := es[..|es| - 1], es[|es| - 1];
      assert es == before + [e];
      RunSplit(Initial(directory), before, e);
      ContextsKept(directory, before, i);
    }
  }

  /** The directory task `i` was given: the first task's own, or the clone made at its fork. */
  function GivenDirectory(directory: nat, es: seq<Event>, i: nat): Option<nat> {
    if es == [] then if i == 0 then Some(directory) else None
    else
      var before := es[..|es| - 1];
      match es[|es| - 1]
      case Fork(_, clone) => if i == |Run(Initial(directory), before).queue| then Some(clone) else GivenDirectory(directory, before, i)
      case Switch(_) => GivenDirectory(directory, before, i)
  }

  /** Over every run, every task keeps the directory it was given. */
  lemma {:induction false} DirectoriesKept(directory: nat, es: seq<Event>, i: nat)
    ensures var s := Run(Initial(directory), es);
            i < |s.queue| ==> GivenDirectory(directory, es, i) == Some(s.queue[i].directory)
  {
    if es != [] {
      var before, e := es[..|es| - 1], es[|es| - 1];
      assert es == before + [e];
      RunSplit(Initial(directory), before, e);
      DirectoriesKept(directory, before, i);
    }
  }

  /** A switch resumes a task with exactly the registers last saved for it. */
  lemma {:induction false} ResumesWhereSaved(directory: nat, es: seq<Event>, regs: Registers)
    ensures var after := es + [Switch(regs)];
            var s := Run(Initial(directory), after);
            LastSaved(directory, after, s.current) == Some(s.queue[s.current].regs)
  {
    var after := es + [Switch(regs)];
    var before := Run(Initial(directory), es);
    var s := Run(Initial(directory), after);
    assert after[..|after| - 1] == es;
    RunSplit(Initial(directory), es, Switch(regs));
    if s.current != before.current {
      ContextsKept(directory, es, s.current);
    }
  }

  /**
   The resumed path without its test: the resumed task saves again, with whatever is in EAX as
   its instruction pointer, and moves on.  Its context survives exactly when EAX happens to
   hold the saved instruction pointer.
   */
  function ResumedAsWritten(s: State, eax: nat): State
    requires s.current < |s.queue|
  {
    Switched(s, s.queue[s.current].regs.(eip := eax))
  }

  lemma ResumedExact(s: State, eax: nat)
    requires s.current < |s.queue|
    ensures ResumedAsWritten(s, eax).queue == s.queue <==> eax == s.queue[s.current].regs.eip
    ensures ResumedAsWritten(s, eax).current == s.current <==> |s.queue| == 1
  {
    var t := ResumedAsWritten(s, eax);
    assert t.queue[s.current].regs.eip == eax;
  }

  /**
   With two tasks and what the jump leaves in EAX, the physical address of the directory it has
   loaded, the resumed task loses its instruction pointer and does not run.
   */
  lemma ResumedFails()
    ensures var regs := Registers(0x10_1000, 0, 0);
            var s := State([TaskValue(1, regs, 0x11_6000), TaskValue(2, regs, 0x11_A000)], 0, 3, 0x11_6000);
            var t := ResumedAsWritten(s, s.directory);
            t.current == 1 && t.queue[0].regs.eip == 0x11_6000
  {
  }

  // ----- Bounded wait

  function Switches(es: seq<Event>): nat {
    if es == [] then 0 else (if es[0].Switch? then 1 else 0) + Switches(es[1..])
  }

  /** A task further down the queue runs after exactly as many switches as it is places away. */
  lemma {:induction false} WaitAhead(s: State, es: seq<Event>, q: nat)
    requires s.current <= q < |s.queue| && Switches(es) <= q - s.current
    ensures Run(s, es).current == s.current + Switches(es)
    decreases es
  {
    if es != [] {
      WaitAhead(Step(s, es[0]), es[1..], q);
    }
  }

  /** The switches until task `q` runs if nobody forks. */
  function Distance(s: State, q: nat): nat
    requires s.current < |s.queue|
  {
    if s.current < q then q - s.current else |s.queue| - s.current + q
  }

  /**
   The forks that put a task between the current one and `q`: those before the queue comes round,
   and before `q` runs.
   */
  function Delays(s: State, es: seq<Event>, q: nat): nat
    requires s.current < |s.queue|
    decreases es
  {
    if es == [] then 0
    else
      var t := Step(s, es[0]);
      if es[0].Switch? && t.current == q then 0
      else (if es[0].Fork? && s.current >= q then 1 else 0) + Delays(t, es[1..], q)
  }

  /** A switch makes task `q` current after `k` events, and none does so before. */
  ghost predicate RunsFirst(s: State, es: seq<Event>, q: nat, k: nat)
    requires s.current < |s.queue|
  {
    && Resumed(s, es, q, k)
    && forall j :: 0 < j < k ==> !Resumed(s, es, q, j)
  }

  predicate Resumed(s: State, es: seq<Event>, q: nat, k: nat)
    requires s.current < |s.queue|
  {
    0 < k <= |es| && es[k - 1].Switch? && Run(s, es[..k]).current == q
  }

  lemma {:induction false} ResumedStep(s: State, es: seq<Event>, q: nat, k: nat)
    requires s.current < |s.queue| && es != []
    ensures Resumed(s, es, q, k + 1) <==>
            if k == 0 then es[0].Switch? && Step(s, es[0]).current == q else Resumed(Step(s, es[0]), es[1..], q, k)
  {
    if k < |es| {
      assert es[..k + 1] == [es[0]] + es[1..][..k];
      assert es[..k + 1][1..] == es[1..][..k];
    }
  }

  /** The same counts for a run and for what follows its first event. */
  lemma {:induction false} CountStep(s: State, es: seq<Event>, q: nat, k: nat)
    requires s.current < |s.queue| && k < |es|
    ensures Switches(es[..k + 1]) == (if es[0].Switch? then 1 else 0) + Switches(es[1..][..k])
    ensures !(es[0].Switch? && Step(s, es[0]).current == q) ==>
              Delays(s, es[..k + 1], q) == (if es[0].Fork? && s.current >= q then 1 else 0) + Delays(Step(s, es[0]), es[1..][..k], q)
  {
    assert es[..k + 1] == [es[0]] + es[1..][..k];
    assert es[..k + 1][1..] == es[1..][..k];
  }

  /**
   Bounded wait, exactly: however forks and switches are interleaved, a task runs again after as
   many switches as it is away, plus one for each fork before the queue comes round.
   */
  lemma {:induction false} BoundedWait(s: State, es: seq<Event>, q: nat) returns (k: nat)
    requires s.current < |s.queue| && q < |s.queue|
    requires Switches(es) >= Distance(s, q) + Delays(s, es, q)
    ensures RunsFirst(s, es, q, k)
    ensures Switches(es[..k]) == Distance(s, q) + Delays(s, es[..k], q) && Delays(s, es[..k], q) == Delays(s, es, q)
    decreases es
  {
    var e, t := es[0], Step(s, es[0]);
    ResumedStep(s, es, q, 0);
    if e.Switch? && t.current == q {
      k := 1;
      assert es[..1] == [e] && [e][1..] == [];
    } else {
      var l := BoundedWait(t, es[1..], q);
      hide Run, Switches, Delays, Resumed;
      k := l + 1;
      ResumedStep(s, es, q, l);
      CountStep(s, es, q, l);
      CountAll(s, es, q);
      forall j | 0 < j < k ensures !Resumed(s, es, q, j) {
        ResumedStep(s, es, q, j - 1);
      }
    }
  }

  lemma {:induction false} CountAll(s: State, es: seq<Event>, q: nat)
    requires s.current < |s.queue| && es != []
    ensures Switches(es) == (if es[0].Switch? then 1 else 0) + Switches(es[1..])
    ensures !(es[0].Switch? && Step(s, es[0]).current == q) ==>
              Delays(s, es, q) == (if es[0].Fork? && s.current >= q then 1 else 0) + Delays(Step(s, es[0]), es[1..], q)
  {
  }

  /** It runs within a sequence of events if and only if that has so many switches. */
  lemma {:induction false} WaitExact(s: State, es: seq<Event>, q: nat)
    requires s.current < |s.queue| && q < |s.queue|
    ensures (exists k :: RunsFirst(s, es, q, k)) <==> Switches(es) >= Distance(s, q) + Delays(s, es, q)
    decreases es
  {
    if Switches(es) >= Distance(s, q) + Delays(s, es, q) {
      var k := BoundedWait(s, es, q);
      assert RunsFirst(s, es, q, k);
    } else {
      forall k ensures !RunsFirst(s, es, q, k) {
        if RunsFirst(s, es, q, k) {
          EnoughSwitches(s, es, q, k);
        }
      }
    }
  }

  lemma {:induction false} EnoughSwitches(s: State, es: seq<Event>, q: nat, k: nat)
    requires s.current < |s.queue| && q < |s.queue| && RunsFirst(s, es, q, k)
    ensures Switches(es) >= Distance(s, q) + Delays(s, es, q)
    decreases es
  {
    var t := Step(s, es[0]);
    hide Run, Resumed;
    ResumedStep(s, es, q, k - 1);
    ResumedStep(s, es, q, 0);
    if k > 1 {
      forall j | 0 < j < k - 1 ensures !Resumed(t, es[1..], q, j) {
        ResumedStep(s, es, q, j);
      }
      EnoughSwitches(t, es[1..], q, k - 1);
    }
  }

  /** Without the queue coming round no fork delays a task. */
  lemma {:induction false} NoDelayAhead(s: State, es: seq<Event>, q: nat)
    requires s.current < q < |s.queue|
    ensures Delays(s, es, q) == 0
    decreases es
  {
    if es != [] {
      var t := Step(s, es[0]);
      if !(es[0].Switch? && t.current == q) {
        NoDelayAhead(t, es[1..], q);
      }
    }
  }

  // ----- The linked queue

  class Task {
    var id: nat
    var eip: nat
    var esp: nat
    var ebp: nat
    var pageDirectory: nat
    var next: Task?

    constructor (id: nat, pageDirectory: nat)
      ensures this.id == id && this.pageDirectory == pageDirectory && next == null
      ensures eip == esp == ebp == 0
    {
      this.id := id;
      this.eip, this.esp, this.ebp := 0, 0, 0;
      this.pageDirectory := pageDirectory;
      this.next := null;
    }

    function Value(): TaskValue
      reads this
    {
      TaskValue(id, Registers(eip, esp, ebp), pageDirectory)
    }
  }

  class Scheduler {
    var currentTask: Task?
    var readyQueue: Task?
    var nextPid: nat
    var currentDirectory: nat
    ghost var queue: seq<Task>
    ghost var position: nat

    /** The tasks of `queue`, linked in this order and no other way. */
    ghost predicate Valid()
      reads this, queue
    {
      if currentTask == null then queue == []
      else
        && position < |queue| && currentTask == queue[position] && readyQueue == queue[0]
        && (forall i {:trigger queue[i].next} :: 0 <= i < |queue| - 1 ==> queue[i].next == queue[i + 1])
        && queue[|queue| - 1].next == null
        && (forall i, j :: 0 <= i < j < |queue| ==> queue[i] != queue[j])
    }

    ghost function Values(ts: seq<Task>): (vs: seq<TaskValue>)
      reads ts
      ensures |vs| == |ts| && forall i :: 0 <= i < |ts| ==> vs[i] == ts[i].Value()
    {
      if ts == [] then [] else [ts[0].Value()] + Values(ts[1..])
    }

    ghost function Abstract(): State
      reads this, queue
    {
      State(Values(queue), position, nextPid, currentDirectory)
    }

    constructor (directory: nat)
      ensures Valid() && currentTask == null && nextPid == 1 && currentDirectory == directory
    {
      currentTask, readyQueue := null, null;
      nextPid := 1;
      currentDirectory := directory;
      queue, position := [], 0;
    }

    method InitialiseTasking()
      requires Valid() && nextPid == 1
      modifies this
      ensures Valid() && currentTask != null && Abstract() == Initial(old(currentDirectory))
      ensures Abstract() == State([TaskValue(1, Registers(0, 0, 0), old(currentDirectory))], 0, 2, old(currentDirectory))
    {
      var task := new Task(nextPid, currentDirectory);
      currentTask := task;
      readyQueue := task;
      nextPid := (nextPid + 1) % PIDS;
      queue, position := [task], 0;
    }

    /** Walks from the head of the ready queue to its tail. */
    method LastTask() returns (tail: Task)
      requires Valid() && currentTask != null
      ensures tail == queue[|queue| - 1]
    {
      tail := readyQueue;
      ghost var i := 0;
      while tail.next != null
        invariant 0 <= i < |queue| && tail == queue[i]
        decreases |queue| - i
      {
        tail := tail.next;
        i := i + 1;
      }
    }

    /** Hangs a new task behind the tail. */
    method Append(child: Task)
      requires Valid() && currentTask != null && child !in queue && child.next == null
      modifies this`queue, queue
      ensures Valid() && queue == old(queue) + [child]
      ensures Values(queue) == old(Values(queue)) + [old(child.Value())]
    {
      hide Values;
      var tail := LastTask();
      tail.next := child;
      queue := queue + [child];
    }

    /** Appends a child of the current task; `clone` is the directory cloned for it. */
    method ForkTask(regs: Registers, clone: nat) returns (id: nat)
      requires Valid() && currentTask != null
      modifies this, queue
      ensures Valid() && currentTask == old(currentTask)
      ensures Abstract() == Forked(old(Abstract()), regs, clone)
      ensures Abstract().queue == old(Abstract()).queue + [TaskValue(old(nextPid), regs, clone)]
      ensures nextPid == (old(nextPid) + 1) % 0x1_0000_0000 && currentDirectory == old(currentDirectory)
      ensures id == old(nextPid)
    {
      hide Values, Valid;
      var child := Create(regs, clone);
      Append(child);
      id := child.id;
    }

    /** A task of its own number, not yet in the queue. */
    method Create(regs: Registers, clone: nat) returns (child: Task)
      requires Valid()
      modifies this`nextPid
      ensures Valid() && fresh(child) && child.next == null && child.id == old(nextPid)
      ensures child.Value() == TaskValue(old(nextPid), regs, clone)
      ensures nextPid == (old(nextPid) + 1) % PIDS && Values(queue) == old(Values(queue))
    {
      hide Values;
      child := new Task(nextPid, clone);
      nextPid := (nextPid + 1) % PIDS;
      child.esp := regs.esp;
      child.ebp := regs.ebp;
      child.eip := regs.eip;
    }

    /** Saves the registers, moves on to the next task, and gives the registers to load. */
    method SwitchTask(regs: Registers) returns (loaded: Registers)
      requires Valid()
      modifies this, queue
      ensures Valid()
      ensures old(currentTask) == null ==> Abstract() == old(Abstract()) && loaded == regs
      ensures old(currentTask) != null ==>
                currentTask != null && Abstract() == Switched(old(Abstract()), regs)
                && loaded == Abstract().queue[position].regs
      ensures old(currentTask) != null ==>
                && Abstract().queue == old(Abstract()).queue[old(position) := old(Abstract()).queue[old(position)].(regs := regs)]
                && position == (if old(position) + 1 == |queue| then 0 else old(position) + 1)
                && currentDirectory == Abstract().queue[position].directory && nextPid == old(nextPid)
    {
      if currentTask == null {
        return regs;
      }
      Save(regs);
      loaded := Advance();
    }

    method Advance() returns (loaded: Registers)
      requires Valid() && currentTask != null
      modifies this
      ensures Valid() && currentTask != null && queue == old(queue) && nextPid == old(nextPid)
      ensures position == Next(old(position), |queue|)
      ensures currentDirectory == Values(queue)[position].directory && loaded == Values(queue)[position].regs
      ensures Values(queue) == old(Values(queue))
    {
      hide Values;
      ghost var last := currentTask.next == null;
      currentTask := currentTask.next;
      if currentTask == null {
        currentTask := readyQueue;
      }
      position := if last then 0 else position + 1;
      loaded := Registers(currentTask.eip, currentTask.esp, currentTask.ebp);
      currentDirectory := currentTask.pageDirectory;
    }

    method Save(regs: Registers)
      requires Valid() && currentTask != null
      modifies currentTask
      ensures Valid()
      ensures Abstract() == old(Abstract()).(queue := old(Abstract()).queue[position := old(Abstract()).queue[position].(regs := regs)])
    {
      hide Values;
      currentTask.eip := regs.eip;
      currentTask.esp := regs.esp;
      currentTask.ebp := regs.ebp;
    }
  }
}
