/** The task table (kernel/task.c) and the timer interrupt that charges it (drivers/timer.c). */
module Tasks {
  import opened Basics

  const MAX_TASKS := 16
  const MAX_PROGRAM_SIZE := 64 * 1024

  datatype TaskState = Ready | Running | Zombie

  datatype Task = Task(pid: int, state: TaskState, ticks: word, kernel: bool)

  /** All ticks charged. */
  function Charged(tasks: seq<Task>): nat {
    if tasks == [] then 0 else Charged(tasks[..|tasks| - 1]) + tasks[|tasks| - 1].ticks
  }

  lemma {:induction false} ChargedUpdate(tasks: seq<Task>, i: nat, t: Task)
    requires i < |tasks|
    ensures Charged(tasks[i := t]) == Charged(tasks) - tasks[i].ticks + t.ticks
  {
    var n := |tasks| - 1;
    if i < n {
      ChargedUpdate(tasks[..n], i, t);
      assert tasks[i := t][..n] == tasks[..n][i := t];
    } else {
      assert tasks[i := t][..n] == tasks[..n];
    }
  }

  lemma {:induction false} OneMore(clock: word, charged: int, ticks: word)
    ensures ((clock + 1) % WORD_LIMIT - (charged - ticks + (ticks + 1) % WORD_LIMIT)) % WORD_LIMIT ==
            (clock - charged) % WORD_LIMIT
  {
  }

  /** One task charged with n more ticks in wrapping arithmetic. */
  function Charge(tasks: seq<Task>, i: nat, n: nat): seq<Task>
    requires i < |tasks|
  {
    tasks[i := tasks[i].(ticks := (tasks[i].ticks + n) % WORD_LIMIT)]
  }

  class Scheduler {
    const tasks: array<Task>
    var count: nat
    var current: nat
    /** g_ticks */
    var clock: word

    ghost predicate Valid()
      reads this
    {
      tasks.Length == MAX_TASKS && count <= MAX_TASKS && current < count
    }

    function Table(): seq<Task>
      requires Valid()
      reads this, tasks
    {
      tasks[..count]
    }

    /** Clock ticks not charged to any task, modulo the width of the counters. */
    ghost function Uncharged(): int
      requires Valid()
      reads this, tasks
    {
      (clock - Charged(Table())) % WORD_LIMIT
    }

    /** Between launches exactly the current task is running. */
    ghost predicate OneRuns()
      requires Valid()
      reads this, tasks
    {
      forall i :: 0 <= i < count ==> (tasks[i].state == Running <==> i == current)
    }

    /** task_init, on a machine whose clock shows `now` */
    constructor (now: word)
      ensures Valid() && fresh(tasks) && OneRuns() && count == 1 && Uncharged() == now
    {
      tasks := new Task[MAX_TASKS](_ => Task(0, Ready, 0, false));
      count, current, clock := 1, 0, now;
      new;
      tasks[0] := Task(1, Running, 0, true);
      assert Table() == [tasks[0]] && Table()[..0] == [];
      assert Charged(Table()) == Charged([]) + tasks[0].ticks;
    }

    /** add_task */
    method AddTask(kernel: bool, state: TaskState)
      requires Valid() && state != Running
      modifies this`count, tasks
      ensures Valid() && Uncharged() == old(Uncharged())
      ensures Table() == if old(count) >= MAX_TASKS then old(Table())
                         else old(Table()) + [Task(old(count) + 1, state, 0, kernel)]
    {
      if count >= MAX_TASKS {
        return;
      }
      tasks[count] := Task(count + 1, state, 0, kernel);
      count := count + 1;
      assert Table()[..count - 1] == old(Table());
      assert Charged(Table()) == Charged(old(Table())) + 0;
    }

    /** timer_callback: the clock and, through task_tick, the current task */
    method Tick()
      requires Valid()
      modifies this`clock, tasks
      ensures Valid() && Uncharged() == old(Uncharged())
      ensures Table() == Charge(old(Table()), current, 1) && tasks[count..] == old(tasks[count..])
    {
      var t := tasks[current];
      OneMore(clock, Charged(Table()), t.ticks);
      ChargedUpdate(Table(), current, t.(ticks := (t.ticks + 1) % WORD_LIMIT));
      hide Charged;
      clock := (clock + 1) % WORD_LIMIT;
      if current < count {
        tasks[current] := t.(ticks := (t.ticks + 1) % WORD_LIMIT);
      }
      assert Table() == Charge(old(Table()), current, 1);
    }

    /** Any number of timer interrupts. */
    method Interrupts(n: nat)
      requires Valid()
      modifies this`clock, tasks
      ensures Valid() && Uncharged() == old(Uncharged())
      ensures Table() == Charge(old(Table()), current, n)
    {
      var i := 0;
      while i < n
        invariant i <= n && Valid() && Uncharged() == old(Uncharged())
        invariant Table() == Charge(old(Table()), current, i)
      {
        Tick();
        ChargeTwice(old(Table()), current, i, 1);
        i := i + 1;
      }
    }

    /** A store to a task's state. */
    method SetState(i: nat, state: TaskState)
      requires Valid() && i < count
      modifies tasks
      ensures Uncharged() == old(Uncharged())
      ensures Table() == SetStates(old(Table()), i, state)
    {
      ChargedUpdate(Table(), i, tasks[i].(state := state));
      hide Charged;
      tasks[i] := tasks[i].(state := state);
      assert Table() == SetStates(old(Table()), i, state);
    }

    /** The first half of task_run_program: the parent steps back, the new task runs. */
    method Launch(before: nat, between: nat, after: nat)
      requires Valid() && OneRuns() && count < MAX_TASKS
      modifies this`count, this`current, this`clock, tasks
      ensures Valid() && Uncharged() == old(Uncharged()) && count == old(count) + 1 && current == old(count)
      ensures Table() == SetStates(Charge(old(Table()), old(current), before + between + after), old(current), Ready)
                         + [Task(old(count) + 1, Running, 0, false)]
      ensures OneRuns() && Table()[old(current)].state == Ready
    {
      hide Charged, Charge, SetStates;
      var parent, slot := current, count;
      LaunchTable(Table(), Task(slot + 1, Ready, 0, false), parent, before, between, after);
      AddTask(false, Ready);
      Interrupts(before);
      SetState(parent, Ready);
      Interrupts(between);
      SetState(slot, Running);
      Interrupts(after);
      current := slot;
      LaunchStates(old(Table()), parent, before + between + after, Task(slot + 1, Running, 0, false));
      assert forall i :: 0 <= i < count ==> Table()[i] == tasks[i];
    }

    /** The second half: the new task is a zombie, the parent runs again. */
    method Finish(parent: nat, running: nat, ended: nat, back: nat, after: nat)
      requires Valid() && parent < current == count - 1
      modifies this`current, this`clock, tasks
      ensures Valid() && Uncharged() == old(Uncharged()) && current == parent
      ensures var was := old(Table());
              Table() == SetStates(Charge(SetStates(Charge(was, old(current), running + ended), old(current), Zombie),
                                          parent, back + after), parent, Running)
    {
      hide Charged, Charge, SetStates;
      var slot := current;
      FinishTable(Table(), slot, parent, running, ended, back, after);
      Interrupts(running);
      SetState(slot, Zombie);
      Interrupts(ended);
      current := parent;
      Interrupts(back);
      SetState(parent, Running);
      Interrupts(after);
    }

    /** task_run_program. Timer interrupts fall between the statements: gaps[k] of them in gap k,
        gaps[3] while the program runs. Before and after the program it is the parent that is charged. */
    method RunProgram(size: nat, gaps: seq<nat>) returns (pid: int)
      requires Valid() && OneRuns() && |gaps| == 7
      modifies this`count, this`current, this`clock, tasks
      ensures Valid() && Uncharged() == old(Uncharged()) && current == old(current)
      ensures OneRuns()
      ensures var was := old(Table());
              if |was| >= 16 || size == 0 || size > 65536 then pid == -1 && Table() == was
              else
                && pid == |was| + 1
                && Table() == Charge(was, current, gaps[0] + gaps[1] + gaps[2] + (gaps[5] + gaps[6]))
                              + [Task(pid, Zombie, (gaps[3] + gaps[4]) % WORD_LIMIT, false)]
    {
      if count >= MAX_TASKS || size == 0 || size > MAX_PROGRAM_SIZE {
        return -1;
      }
      hide Charged;
      var parent, slot := current, count;
      ghost var was := Table();
      assert was[parent].state == Running;
      Launch(gaps[0], gaps[1], gaps[2]);
      Finish(parent, gaps[3], gaps[4], gaps[5], gaps[6]);
      ChargeTwice(was, parent, gaps[0] + gaps[1] + gaps[2], gaps[5] + gaps[6]);
      ghost var z := Task(slot + 1, Zombie, (gaps[3] + gaps[4]) % WORD_LIMIT, false);
      ghost var final := Charge(was, parent, gaps[0] + gaps[1] + gaps[2] + (gaps[5] + gaps[6])) + [z];
      assert Table() == final;
      assert forall i :: 0 <= i < count ==> tasks[i] == final[i];
      return slot + 1;
    }
  }

  function SetStates(tasks: seq<Task>, i: nat, state: TaskState): seq<Task>
    requires i < |tasks|
  {
    tasks[i := tasks[i].(state := state)]
  }

  lemma {:induction false} ChargeTwice(tasks: seq<Task>, i: nat, a: nat, b: nat)
    requires i < |tasks|
    ensures Charge(Charge(tasks, i, a), i, b) == Charge(tasks, i, a + b)
  {
  }

  lemma {:induction false} StateThenCharge(tasks: seq<Task>, i: nat, state: TaskState, a: nat, b: nat)
    requires i < |tasks|
    ensures |Charge(tasks, i, a)| == |SetStates(Charge(tasks, i, a), i, state)| == |tasks|
    ensures Charge(SetStates(Charge(tasks, i, a), i, state), i, b) == SetStates(Charge(tasks, i, a + b), i, state)
  {
  }

  /** The stores and interrupts of Launch, one after the other. */
  lemma {:induction false} LaunchTable(was: seq<Task>, z: Task, parent: nat, before: nat, between: nat, after: nat)
    requires parent < |was|
    ensures var t := SetStates(Charge(was + [z], parent, before), parent, Ready);
            Charge(SetStates(Charge(t, parent, between), |was|, Running), parent, after) ==
            SetStates(Charge(was, parent, before + between + after), parent, Ready) + [z.(state := Running)]
  {
    ChargeFirst(was, [z], parent, before);
    StateThenCharge(was, parent, Ready, before, between);
    StateThenCharge(was, parent, Ready, before + between, after);
    var u := SetStates(Charge(was, parent, before), parent, Ready);
    assert SetStates(Charge(was, parent, before) + [z], parent, Ready) == u + [z];
    ChargeFirst(u, [z], parent, between);
    var v := SetStates(Charge(was, parent, before + between), parent, Ready);
    assert SetStates(v + [z], |was|, Running) == v + [z.(state := Running)];
    ChargeFirst(v, [z.(state := Running)], parent, after);
  }

  lemma {:induction false} LaunchStates(was: seq<Task>, parent: nat, n: nat, z: Task)
    requires parent < |was|
    ensures var t := SetStates(Charge(was, parent, n), parent, Ready) + [z];
            && |t| == |was| + 1 && t[|was|] == z
            && forall i :: 0 <= i < |was| ==> t[i].state == if i == parent then Ready else was[i].state
  {
  }

  /** Those of Finish. */
  lemma {:induction false} FinishTable(was: seq<Task>, slot: nat, parent: nat, running: nat, ended: nat,
                                        back: nat, after: nat)
    requires parent < slot < |was|
    ensures var mid := SetStates(Charge(was, slot, running + ended), slot, Zombie);
            && Charge(SetStates(Charge(was, slot, running), slot, Zombie), slot, ended) == mid
            && Charge(SetStates(Charge(mid, parent, back), parent, Running), parent, after) ==
               SetStates(Charge(mid, parent, back + after), parent, Running)
  {
    StateThenCharge(was, slot, Zombie, running, ended);
    StateThenCharge(SetStates(Charge(was, slot, running + ended), slot, Zombie), parent, Running, back, after);
  }

  lemma {:induction false} ChargeFirst(a: seq<Task>, b: seq<Task>, i: nat, n: nat)
    requires i < |a|
    ensures Charge(a + b, i, n) == Charge(a, i, n) + b
  {
  }
}
