/** Tasks on values: the round-robin choice, creation, exit and deletion, and what their runs keep. */
module Tasks {
  import opened Bytes
  import Entries

  const MAX_TASKS := 16
  const STACK_BYTES := 16777216
  const FRAME_BYTES := 176   // the 22 words that a new task's stack starts with

  /** `struct task`; the run path follows the name in memory. */
  datatype Task = Task(rsp: u64, active: bool, name: seq<byte>, path: seq<byte>)

  /** The scheduler's globals. */
  datatype Sched = Sched(tasks: seq<Task>, count: nat, current: nat, ticks: u64)

  predicate TaskOk(t: Task) { |t.name| == 32 && |t.path| == 1024 }

  ghost predicate SchedOk(s: Sched) {
    && |s.tasks| == MAX_TASKS && s.count <= MAX_TASKS
    && (if s.count == 0 then s.current == 0 else s.current < s.count)
    && (forall i :: 0 <= i < MAX_TASKS ==> TaskOk(s.tasks[i]))
    && (forall i :: 0 <= i < s.count ==> 0 in s.tasks[i].path)
  }

  // ---------------------------------------------------------------- the round-robin choice

  /** The first active task from `lo` up to `hi`. */
  function FirstActive(ts: seq<Task>, lo: nat, hi: nat): (i: Option<nat>)
    requires hi <= |ts|
    ensures i.Some? ==> lo <= i.value < hi && ts[i.value].active
    ensures forall j :: lo <= j < (if i.Some? then i.value else hi) ==> !ts[j].active
    decreases hi - lo
  {
    if lo >= hi then None else if ts[lo].active then Some(lo) else FirstActive(ts, lo + 1, hi)
  }

  ghost predicate SomeActive(s: Sched)
    requires s.count <= |s.tasks|
  {
    exists i :: 0 <= i < s.count && s.tasks[i].active
  }

  /** The first active task after `cur`, round the end of the list and up to `cur` itself. */
  function NextActive(ts: seq<Task>, count: nat, cur: nat): (i: Option<nat>)
    requires cur < count <= |ts|
    ensures i.Some? ==> i.value < count && ts[i.value].active
    ensures i == None ==> forall j :: 0 <= j < count ==> !ts[j].active
  {
    var later := FirstActive(ts, cur + 1, count);
    if later.Some? then later else FirstActive(ts, 0, cur + 1)
  }

  /** The task that the loop looks at after `k` steps from `cur`. */
  function After(cur: nat, count: nat, k: nat): nat
    requires count > 0
  {
    (cur + k) % count
  }

  lemma AfterIs(cur: nat, count: nat, i: nat)
    requires cur < count && i < count
    ensures After(cur, count, if cur < i then i - cur else count - cur + i) == i
  {
    if cur < i {
      QuotientIs(i, count, 0, i);
    } else {
      QuotientIs(count + i, count, 1, i);
    }
  }

  /** The loop reaches an active task, and so ends, exactly when some task is active. */
  lemma LoopEnds(s: Sched)
    requires SchedOk(s) && s.count > 0
    ensures (exists k: nat :: k > 0 && s.tasks[After(s.current, s.count, k)].active) <==> SomeActive(s)
  {
    if SomeActive(s) {
      var i :| 0 <= i < s.count && s.tasks[i].active;
      AfterIs(s.current, s.count, i);
      var k: nat := if s.current < i then i - s.current else s.count - s.current + i;
      assert k > 0 && s.tasks[After(s.current, s.count, k)].active;
    }
  }

  // ---------------------------------------------------------------- the calls

  /** `schedule`: the interrupted task's stack pointer is saved and the next active task chosen. */
  ghost function Schedule(s: Sched, rsp: u64): (r: (Sched, u64))
    requires SchedOk(s) && (s.count > 0 ==> SomeActive(s))
    ensures SchedOk(r.0) && r.0.count == s.count
  {
    if s.count == 0 then (s, rsp)
    else
      var ts := s.tasks[s.current := s.tasks[s.current].(rsp := rsp)];
      SavedActive(s, rsp);
      var next := NextActive(ts, s.count, s.current).value;
      (Sched(ts, s.count, next, Add64(s.ticks, 1)), ts[next].rsp)
  }

  lemma SavedActive(s: Sched, rsp: u64)
    requires SchedOk(s) && s.count > 0 && SomeActive(s)
    ensures NextActive(s.tasks[s.current := s.tasks[s.current].(rsp := rsp)], s.count, s.current).Some?
  {
    var i :| 0 <= i < s.count && s.tasks[i].active;
    assert s.tasks[s.current := s.tasks[s.current].(rsp := rsp)][i].active;
  }

  function Deactivate(s: Sched, i: nat): Sched
    requires i < |s.tasks|
  {
    s.(tasks := s.tasks[i := s.tasks[i].(active := false)])
  }

  /** A name copied into its 32-byte field: up to its NUL, or its first 32 characters without one. */
  function CopiedName(was: seq<byte>, name: seq<byte>): (c: seq<byte>)
    requires |was| == 32
    ensures |c| == 32
  {
    seq(32, i requires 0 <= i < 32 => if i < |name| then name[i] else if i == |name| then 0 else was[i])
  }

  function PathLength(path: seq<byte>): nat { if |path| < 1023 then |path| else 1023 }

  /** A run path copied into its 1024-byte field, cut to 1023 characters. */
  function CopiedPath(was: seq<byte>, path: seq<byte>): (c: seq<byte>)
    requires |was| == 1024
    ensures |c| == 1024 && 0 in c
  {
    var n := PathLength(path);
    var c := path[..n] + [0] + was[n + 1..];
    assert c[n] == 0;
    c
  }

  /** The top of task `i`'s stack, aligned down to 16. */
  function StackTop(stacks: nat, i: nat): nat { (stacks + (i + 1) * STACK_BYTES) / 16 * 16 }

  function CreatedRsp(stacks: nat, i: nat): (r: u64)
    requires stacks + 17 * STACK_BYTES < U64 && i < MAX_TASKS
    ensures stacks + i * STACK_BYTES <= r && r + FRAME_BYTES <= stacks + (i + 1) * STACK_BYTES
  {
    StackTop(stacks, i) - FRAME_BYTES
  }

  /** A task's stack starts at the last multiple of 16 in its own part of the stacks. */
  lemma StackTopIs(stacks: nat, i: nat)
    ensures StackTop(stacks, i) % 16 == 0
    ensures stacks + (i + 1) * STACK_BYTES - 16 < StackTop(stacks, i) <= stacks + (i + 1) * STACK_BYTES
    ensures stacks + 17 * STACK_BYTES < U64 && i < MAX_TASKS ==> CreatedRsp(stacks, i) == StackTop(stacks, i) - 22 * 8
  {
  }

  /** Creating a task in the next unused slot, if there is one. */
  ghost function Create(s: Sched, stacks: nat, path: seq<byte>, name: seq<byte>): Sched
    requires SchedOk(s) && stacks + 17 * STACK_BYTES < U64
  {
    if s.count >= MAX_TASKS then s
    else
      var t := s.tasks[s.count];
      s.(tasks := s.tasks[s.count := Task(CreatedRsp(stacks, s.count), true, CopiedName(t.name, name), CopiedPath(t.path, path))],
         count := s.count + 1)
  }

  /** What a search for a task's name sees: characters up to the first NUL, the path after the name. */
  function TaskName(t: Task): seq<byte> { Entries.CString(t.name + t.path) }

  function FirstNamed(ts: seq<Task>, count: nat, name: seq<byte>, k: nat := 0): (i: Option<nat>)
    requires k <= count <= |ts|
    ensures i.Some? ==> k <= i.value < count && TaskName(ts[i.value]) == name
    ensures forall j :: k <= j < (if i.Some? then i.value else count) ==> TaskName(ts[j]) != name
    decreases count - k
  {
    if k == count then None else if TaskName(ts[k]) == name then Some(k) else FirstNamed(ts, count, name, k + 1)
  }

  /** `delet_task`: with all slots in use nothing happens. */
  function Delete(s: Sched, name: seq<byte>): Sched
    requires s.count <= |s.tasks|
  {
    if s.count >= MAX_TASKS then s
    else
      match FirstNamed(s.tasks, s.count, name)
      case None => s
      case Some(i) => Deactivate(s, i)
  }

  /** A deletion ends an active task exactly when it is the first one, ended ones included, with that
      name and not all slots are in use. */
  lemma DeleteEffect(s: Sched, name: seq<byte>, i: nat)
    requires SchedOk(s) && i < s.count && s.tasks[i].active
    ensures !Delete(s, name).tasks[i].active
        <==> s.count < MAX_TASKS && TaskName(s.tasks[i]) == name && forall j :: 0 <= j < i ==> TaskName(s.tasks[j]) != name
  {
    var f := FirstNamed(s.tasks, s.count, name);
    assert f.Some? ==> TaskName(s.tasks[f.value]) == name;
  }

  /** A task is found under the name it was created with, as long as that has at most 31 characters;
      a longer one is seen cut to 32 characters and continued by the run path. */
  lemma CreatedName(s: Sched, stacks: nat, path: seq<byte>, name: seq<byte>)
    requires SchedOk(s) && stacks + 17 * STACK_BYTES < U64 && s.count < MAX_TASKS
    requires 0 !in name && 0 !in path
    ensures TaskName(Create(s, stacks, path, name).tasks[s.count])
         == if |name| <= 31 then name else name[..32] + path[..PathLength(path)]
  {
    var t := Create(s, stacks, path, name).tasks[s.count];
    var all := t.name + t.path;
    if |name| <= 31 {
      assert all[..|name|] == name;
      Entries.CStringIs(all, |name|);
    } else {
      var n := PathLength(path);
      assert all[..32 + n] == name[..32] + path[..n];
      Entries.CStringIs(all, 32 + n);
    }
  }

  /** A creation leaves an active task with its run path, cut to 1023 characters, behind the tasks there were, which
      stay as they are; with all slots in use it does nothing. */
  lemma CreatedTask(s: Sched, stacks: nat, path: seq<byte>, name: seq<byte>)
    requires SchedOk(s) && stacks + 17 * STACK_BYTES < U64 && 0 !in path
    ensures var s' := Create(s, stacks, path, name);
      if s.count == 16 then s' == s
      else
        && s'.count == s.count + 1 && s'.current == s.current && s'.ticks == s.ticks
        && s'.tasks == s.tasks[s.count := s'.tasks[s.count]]
        && s'.tasks[s.count].active
        && Entries.CString(s'.tasks[s.count].path) == if |path| <= 1023 then path else path[..1023]
  {
    if s.count < 16 {
      var t := Create(s, stacks, path, name).tasks[s.count];
      var n := PathLength(path);
      assert t.path[..n] == path[..n];
      Entries.CStringIs(t.path, n);
    }
  }

  // ---------------------------------------------------------------- runs

  datatype Event =
    | Tick(rsp: u64)                                  // the timer interrupts the current task
    | Exit(rsp: u64)                                  // the current task ends itself
    | Start(path: seq<byte>, name: seq<byte>)         // a task is created
    | Stop(name: seq<byte>)                           // a task is deleted by name

  /** The interrupt comes while some task is left to run. */
  ghost predicate Possible(s: Sched, e: Event)
    requires SchedOk(s)
  {
    match e
    case Tick(_) => s.count > 0 ==> SomeActive(s)
    case Exit(_) => s.count > 0 && SomeActive(Deactivate(s, s.current))
    case _ => true
  }

  ghost function Step(s: Sched, e: Event, stacks: nat): (s': Sched)
    requires SchedOk(s) && Possible(s, e) && stacks + 17 * STACK_BYTES < U64
    ensures SchedOk(s') && s'.count >= s.count
  {
    match e
    case Tick(rsp) => Schedule(s, rsp).0
    case Exit(rsp) => Schedule(Deactivate(s, s.current), rsp).0
    case Start(path, name) => Create(s, stacks, path, name)
    case Stop(name) => Delete(s, name)
  }

  ghost predicate PossibleRun(s: Sched, es: seq<Event>, stacks: nat)
    requires SchedOk(s) && stacks + 17 * STACK_BYTES < U64
    decreases |es|
  {
    es == [] || (Possible(s, es[0]) && PossibleRun(Step(s, es[0], stacks), es[1..], stacks))
  }

  ghost function Run(s: Sched, es: seq<Event>, stacks: nat): (s': Sched)
    requires SchedOk(s) && stacks + 17 * STACK_BYTES < U64 && PossibleRun(s, es, stacks)
    ensures SchedOk(s')
    decreases |es|
  {
    if es == [] then s else Run(Step(s, es[0], stacks), es[1..], stacks)
  }

  // ---------------------------------------------------------------- fairness

  /** How many choices can at most be made before task `i` is chosen. */
  function Distance(cur: nat, i: nat): int {
    if cur < i then i - cur else MAX_TASKS - cur + i
  }

  /** A choice that passes over an active task comes nearer to it. */
  lemma ChoiceComesNearer(ts: seq<Task>, count: nat, cur: nat, i: nat)
    requires cur < count <= |ts| && count <= MAX_TASKS && i < count && ts[i].active
    ensures NextActive(ts, count, cur).Some?
    ensures var c := NextActive(ts, count, cur).value; c == i || Distance(c, i) < Distance(cur, i)
  {
  }

  /** Task `i` stays active over the run and is never the one chosen. */
  ghost predicate PassedOver(s: Sched, es: seq<Event>, stacks: nat, i: nat)
    requires SchedOk(s) && stacks + 17 * STACK_BYTES < U64 && PossibleRun(s, es, stacks)
    decreases |es|
  {
    && i < s.count && s.tasks[i].active
    && (es != [] ==>
        var s' := Step(s, es[0], stacks);
        (es[0].Tick? || es[0].Exit? ==> s'.current != i) && PassedOver(s', es[1..], stacks, i))
  }

  function Choices(es: seq<Event>): (n: nat)
    ensures n <= |es|
  {
    if es == [] then 0 else (if es[0].Tick? || es[0].Exit? then 1 else 0) + Choices(es[1..])
  }

  lemma StepComesNearer(s: Sched, e: Event, stacks: nat, i: nat)
    requires SchedOk(s) && Possible(s, e) && stacks + 17 * STACK_BYTES < U64
    requires i < s.count && s.tasks[i].active && Step(s, e, stacks).tasks[i].active
    requires (e.Tick? || e.Exit?) ==> Step(s, e, stacks).current != i
    ensures Distance(Step(s, e, stacks).current, i) + (if e.Tick? || e.Exit? then 1 else 0) <= Distance(s.current, i)
  {
    match e
    case Tick(rsp) =>
      ChoiceComesNearer(Step(s, e, stacks).tasks, s.count, s.current, i);
    case Exit(rsp) =>
      ChoiceComesNearer(Step(s, e, stacks).tasks, s.count, s.current, i);
    case _ =>
  }

  lemma {:induction false} PassedOverBound(s: Sched, es: seq<Event>, stacks: nat, i: nat)
    requires SchedOk(s) && stacks + 17 * STACK_BYTES < U64 && PossibleRun(s, es, stacks)
    requires PassedOver(s, es, stacks, i)
    ensures Choices(es) < Distance(s.current, i)
    decreases |es|
  {
    if es != [] {
      var s' := Step(s, es[0], stacks);
      PassedOverBound(s', es[1..], stacks, i);
      StepComesNearer(s, es[0], stacks, i);
    }
  }

  /** An active task is chosen at the latest by the 16th choice, whatever is created, ended or deleted
      in between. */
  lemma Fair(s: Sched, es: seq<Event>, stacks: nat, i: nat)
    requires SchedOk(s) && stacks + 17 * STACK_BYTES < U64 && PossibleRun(s, es, stacks)
    requires PassedOver(s, es, stacks, i)
    ensures Choices(es) < MAX_TASKS
  {
    PassedOverBound(s, es, stacks, i);
  }

  // ---------------------------------------------------------------- ended tasks

  /** A task that ends itself is not chosen next. */
  lemma ExitEnds(s: Sched, rsp: u64, stacks: nat)
    requires SchedOk(s) && stacks + 17 * STACK_BYTES < U64 && Possible(s, Exit(rsp))
    ensures var s' := Step(s, Exit(rsp), stacks); !s'.tasks[s.current].active && s'.current != s.current
  {
    SavedActive(Deactivate(s, s.current), rsp);
  }

  /** Task `i` is never the one chosen. */
  ghost predicate NeverChosen(s: Sched, es: seq<Event>, stacks: nat, i: nat)
    requires SchedOk(s) && stacks + 17 * STACK_BYTES < U64 && PossibleRun(s, es, stacks)
    decreases |es|
  {
    es != [] ==>
      var s' := Step(s, es[0], stacks);
      (es[0].Tick? || es[0].Exit? ==> s'.current != i) && NeverChosen(s', es[1..], stacks, i)
  }

  /** A task that has ended stays so and is never chosen again. */
  lemma {:induction false} EndedForGood(s: Sched, es: seq<Event>, stacks: nat, i: nat)
    requires SchedOk(s) && stacks + 17 * STACK_BYTES < U64 && PossibleRun(s, es, stacks)
    requires i < s.count && !s.tasks[i].active
    ensures NeverChosen(s, es, stacks, i) && !Run(s, es, stacks).tasks[i].active
    decreases |es|
  {
    if es != [] {
      StepEnded(s, es[0], stacks, i);
      hide Step, SchedOk, Possible;
      EndedForGood(Step(s, es[0], stacks), es[1..], stacks, i);
    }
  }

  lemma StepEnded(s: Sched, e: Event, stacks: nat, i: nat)
    requires SchedOk(s) && stacks + 17 * STACK_BYTES < U64 && Possible(s, e) && i < s.count && !s.tasks[i].active
    ensures var s' := Step(s, e, stacks);
      i < s'.count && !s'.tasks[i].active && (e.Tick? || e.Exit? ==> s'.current != i)
  {
    match e
    case Tick(rsp) => SavedActive(s, rsp);
    case Exit(rsp) => SavedActive(Deactivate(s, s.current), rsp);
    case _ =>
  }

  // ---------------------------------------------------------------- time

  /** A count kept in 64 bits. */
  function Wrapped(n: nat): u64 { n % 0x1_0000_0000_0000_0000 }

  /** Once there is a task, the tick count grows by one with every choice, and with nothing else. */
  lemma {:induction false} TicksAreChoices(s: Sched, es: seq<Event>, stacks: nat)
    requires SchedOk(s) && stacks + 17 * STACK_BYTES < U64 && PossibleRun(s, es, stacks) && s.count > 0
    ensures Run(s, es, stacks).ticks == Wrapped(s.ticks + Choices(es))
    decreases |es|
  {
    hide Step, SchedOk, Possible, PossibleRun, Run, Choices, Wrapped, Add64;
    if es == [] {
      RunNone(s, stacks);
    } else {
      RunStep(s, es, stacks);
      StepTicks(s, es[0], stacks);
      TicksAreChoices(Step(s, es[0], stacks), es[1..], stacks);
      AddMod(s.ticks, if es[0].Tick? || es[0].Exit? then 1 else 0, Choices(es[1..]));
    }
  }

  lemma RunNone(s: Sched, stacks: nat)
    requires SchedOk(s) && stacks + 17 * STACK_BYTES < U64
    ensures PossibleRun(s, [], stacks) && Run(s, [], stacks) == s && Wrapped(s.ticks + Choices([])) == s.ticks
  {
    hide SchedOk;
  }

  lemma RunStep(s: Sched, es: seq<Event>, stacks: nat)
    requires SchedOk(s) && stacks + 17 * STACK_BYTES < U64 && PossibleRun(s, es, stacks) && es != []
    ensures Possible(s, es[0]) && PossibleRun(Step(s, es[0], stacks), es[1..], stacks)
    ensures Run(s, es, stacks) == Run(Step(s, es[0], stacks), es[1..], stacks)
    ensures Choices(es) == (if es[0].Tick? || es[0].Exit? then 1 else 0) + Choices(es[1..])
  {
    hide Step, SchedOk, Possible;
  }

  lemma StepTicks(s: Sched, e: Event, stacks: nat)
    requires SchedOk(s) && Possible(s, e) && stacks + 17 * STACK_BYTES < U64 && s.count > 0
    ensures Step(s, e, stacks).count > 0
    ensures Step(s, e, stacks).ticks == Add64(s.ticks, if e.Tick? || e.Exit? then 1 else 0)
  {
    hide NextActive, TaskOk, FirstNamed;
  }

  lemma AddMod(a: u64, b: nat, c: nat)
    requires b <= 1
    ensures Wrapped(Add64(a, b) + c) == Wrapped(a + (b + c))
  {
    if a + b >= U64 {
      var x := a + b + c - U64;
      assert (x + U64) % U64 == x % U64;
    }
  }

  /** Before that a timer interrupt does nothing and returns to where it came from. */
  lemma IdleTick(s: Sched, rsp: u64)
    requires SchedOk(s) && s.count == 0
    ensures Schedule(s, rsp) == (s, rsp)
  {
  }

  // ---------------------------------------------------------------- resuming

  /** The stack pointer that the event leaves for task `i`, if it touches it. */
  ghost function SavedBy(s: Sched, e: Event, stacks: nat, i: nat): Option<u64>
    requires stacks + 17 * STACK_BYTES < U64 && i < MAX_TASKS
  {
    match e
    case Tick(rsp) => if s.count > 0 && s.current == i then Some(rsp) else None
    case Exit(rsp) => if s.current == i then Some(rsp) else None
    case Start(_, _) => if s.count == i then Some(CreatedRsp(stacks, i)) else None
    case Stop(_) => None
  }

  /** The last stack pointer a run leaves for task `i`. */
  ghost function LastSaved(s: Sched, es: seq<Event>, stacks: nat, i: nat): Option<u64>
    requires SchedOk(s) && stacks + 17 * STACK_BYTES < U64 && PossibleRun(s, es, stacks) && i < MAX_TASKS
    decreases |es|
  {
    if es == [] then None
    else
      var later := LastSaved(Step(s, es[0], stacks), es[1..], stacks, i);
      if later.Some? then later else SavedBy(s, es[0], stacks, i)
  }

  /** Whatever happened in between, a chosen task is resumed with the stack pointer it was last
      interrupted with, or with the one it was created with. */
  lemma {:induction false} Resumes(s: Sched, es: seq<Event>, stacks: nat, i: nat)
    requires SchedOk(s) && stacks + 17 * STACK_BYTES < U64 && PossibleRun(s, es, stacks) && i < MAX_TASKS
    ensures Run(s, es, stacks).tasks[i].rsp
         == match LastSaved(s, es, stacks, i) case None => s.tasks[i].rsp case Some(rsp) => rsp
    decreases |es|
  {
    if es != [] {
      Resumes(Step(s, es[0], stacks), es[1..], stacks, i);
    }
  }

  lemma ResumedRsp(s: Sched, rsp: u64)
    requires SchedOk(s) && s.count > 0 && SomeActive(s)
    ensures var (s', r) := Schedule(s, rsp);
      && s'.current < s'.count && s'.tasks[s'.current].active
      && r == if s'.current == s.current then rsp else s.tasks[s'.current].rsp
  {
    SavedActive(s, rsp);
  }
}
