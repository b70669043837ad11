/** The scheduler and the task calls, on the task array and the memory that holds the stacks. */
module Scheduler {
  import opened Bytes
  import Entries
  import opened Tasks

  /** The words a new task's stack starts with, from its top down: a zero, the stack top, the flags with
      interrupts on, the code segment, the entry point, error code, interrupt number, 15 registers. */
  function FirstFrame(top: u64, entry: u64): (f: seq<u64>)
    ensures |f| == 22
  {
    [0, top, 0x202, 0x08, entry, 0, 32] + seq(15, i => 0)
  }

  /** The first `n` words of `f` lie below `top`, in memory that was `was` and is otherwise unchanged. */
  ghost predicate Pushed(words: map<nat, u64>, f: seq<u64>, was: map<nat, u64>, top: nat, n: nat)
    requires n <= |f|
  {
    && 8 * n <= top
    && (forall k :: 0 <= k < n ==> WordIs(words, top - 8 * (k + 1), f[k]))
    && (forall a: nat :: !(top - 8 * n <= a < top) ==> (a in words <==> a in was) && (a in words ==> words[a] == was[a]))
  }

  predicate WordIs(words: map<nat, u64>, a: int, w: u64) { a >= 0 && a in words && words[a] == w }

  lemma PushedMore(words: map<nat, u64>, f: seq<u64>, was: map<nat, u64>, top: nat, n: nat)
    requires n < |f| && 8 * n + 8 <= top && Pushed(words, f, was, top, n)
    ensures Pushed(words[top - 8 * n - 8 := f[n]], f, was, top, n + 1)
  {
  }

  lemma PushedNone(words: map<nat, u64>, f: seq<u64>, top: nat)
    ensures Pushed(words, f, words, top, 0)
  {
  }

  /** The registers that the end of the interrupt handler loads from the stack at `sp`: fifteen words, two that are
      skipped, then the instruction pointer, code segment, flags, stack pointer and stack segment. */
  datatype Loaded = Loaded(general: seq<u64>, rip: u64, cs: u64, rflags: u64, rsp: u64, ss: u64)

  predicate Stored(words: map<nat, u64>, sp: nat) {
    forall i :: 0 <= i < 22 ==> sp + 8 * i in words
  }

  function Load(words: map<nat, u64>, sp: nat): Loaded
    requires Stored(words, sp)
  {
    Loaded(seq(15, i requires 0 <= i < 15 => assert sp + 8 * i in words; words[sp + 8 * i]), WordAt(words, sp, 17),
           WordAt(words, sp, 18), WordAt(words, sp, 19), WordAt(words, sp, 20), WordAt(words, sp, 21))
  }

  function WordAt(words: map<nat, u64>, sp: nat, i: nat): u64
    requires Stored(words, sp) && i < 22
  {
    words[sp + 8 * i]
  }

  /** A task resumed from its first frame starts at its entry point, with its own stack empty, interrupts on and all
      other registers zero. */
  lemma FirstFrameStarts(words: map<nat, u64>, was: map<nat, u64>, top: u64, entry: u64)
    requires Pushed(words, FirstFrame(top, entry), was, top, 22)
    ensures top >= FRAME_BYTES && Stored(words, top - FRAME_BYTES)
    ensures Load(words, top - FRAME_BYTES) == Loaded(seq(15, i => 0), entry, 0x08, 0x202, top, 0)
  {
    var sp := top - FRAME_BYTES;
    forall i | 0 <= i < 22
      ensures sp + 8 * i in words && words[sp + 8 * i] == FirstFrame(top, entry)[21 - i]
    {
      FrameWord(words, FirstFrame(top, entry), was, top, i);
    }
    hide Pushed;
    assert Load(words, sp).general == seq(15, i => 0);
  }

  lemma FrameWord(words: map<nat, u64>, f: seq<u64>, was: map<nat, u64>, top: nat, i: nat)
    requires |f| == 22 && Pushed(words, f, was, top, 22) && i < 22
    ensures top >= FRAME_BYTES && top - FRAME_BYTES + 8 * i in words && words[top - FRAME_BYTES + 8 * i] == f[21 - i]
  {
    assert WordIs(words, top - 8 * (21 - i + 1), f[21 - i]);
  }

  lemma {:induction false} Successor(cur: nat, count: nat)
    requires cur < count
    ensures (cur + 1) % count == if cur + 1 == count then 0 else cur + 1
  {
    QuotientIs(cur + 1, count, if cur + 1 == count then 1 else 0, if cur + 1 == count then 0 else cur + 1);
  }

  class Kernel {
    const tasks: array<Task>
    const stacks: nat              // where task_stacks lies
    var count: nat                 // task_count
    var current: nat               // current_task_id
    var ticks: u64                 // tick_count
    var words: map<nat, u64>       // memory, as 8-byte words

    ghost function View(): Sched
      reads this, tasks
    {
      Sched(tasks[..], count, current, ticks)
    }

    ghost predicate Valid()
      reads this, tasks
    {
      SchedOk(View()) && stacks + 17 * STACK_BYTES < U64
    }

    constructor (stacks: nat)
      requires stacks + 17 * STACK_BYTES < U64
      ensures Valid() && count == 0 && this.stacks == stacks && fresh(tasks)
    {
      this.stacks := stacks;
      tasks := new Task[16](i => Task(0, false, seq(32, j => 0), seq(1024, j => 0)));
      count, current, ticks, words := 0, 0, 0, map[];
    }

    // -------------------------------------------------------------- schedule

    /** Between `from` and the current task, going round, no task is active. */
    ghost predicate Searched(ts: seq<Task>, from: nat)
      reads this
      requires count <= |ts|
    {
      && from < count && current < count
      && if current > from then forall j :: from < j < current ==> !ts[j].active
         else (forall j :: from < j < count ==> !ts[j].active) && (forall j :: 0 <= j < current ==> !ts[j].active)
    }

    method Advance()
      requires current < count <= tasks.Length && exists i :: 0 <= i < count && tasks[i].active
      modifies `current
      ensures NextActive(tasks[..], count, old(current)) == Some(current)
    {
      ghost var from := current;
      Successor(current, count);
      current := (current + 1) % count;
      while !tasks[current].active
        invariant Searched(tasks[..], from)
        decreases if current > from then count + from - current else from - current
      {
        assert current != from;
        Successor(current, count);
        current := (current + 1) % count;
      }
    }

    method Schedule(rsp: u64) returns (r: u64)
      requires Valid() && (count > 0 ==> SomeActive(View()))
      modifies this`current, this`ticks, tasks
      ensures Valid() && (View(), r) == old(Tasks.Schedule(View(), rsp))
    {
      hide Tasks.NextActive;
      if count == 0 { return rsp; }
      ticks := Add64(ticks, 1);
      SavedActive(View(), rsp);
      ghost var i :| 0 <= i < count && tasks[i].active;
      tasks[current] := tasks[current].(rsp := rsp);
      assert tasks[i].active;
      Advance();
      return tasks[current].rsp;
    }

    /** `task_exit` up to the switch to another task. */
    method TaskExit(rsp: u64) returns (r: u64)
      requires Valid() && Possible(View(), Exit(rsp))
      modifies this`current, this`ticks, tasks
      ensures Valid() && (View(), r) == old(Tasks.Schedule(Deactivate(View(), current), rsp))
    {
      tasks[current] := tasks[current].(active := false);
      r := Schedule(rsp);
    }

    // -------------------------------------------------------------- creation

    method Push(sp: nat, w: u64, ghost f: seq<u64>, ghost was: map<nat, u64>, ghost top: nat, ghost n: nat) returns (sp': nat)
      requires n < |f| && sp >= 8 && sp == top - 8 * n && f[n] == w && Pushed(words, f, was, top, n)
      modifies `words
      ensures sp' == sp - 8 && Pushed(words, f, was, top, n + 1)
    {
      PushedMore(words, f, was, top, n);
      sp' := sp - 8;
      words := words[sp' := w];
    }

    method PushFirstFrame(top: u64, entry: u64) returns (sp: nat)
      requires top >= FRAME_BYTES
      modifies `words
      ensures sp == top - FRAME_BYTES && Pushed(words, FirstFrame(top, entry), old(words), top, 22)
    {
      hide Pushed;
      ghost var f, was := FirstFrame(top, entry), words;
      PushedNone(words, f, top);
      sp := Push(top, 0, f, was, top, 0);
      sp := Push(sp, top, f, was, top, 1);
      sp := Push(sp, 0x202, f, was, top, 2);
      sp := Push(sp, 0x08, f, was, top, 3);
      sp := Push(sp, entry, f, was, top, 4);
      sp := Push(sp, 0, f, was, top, 5);
      sp := Push(sp, 32, f, was, top, 6);
      for k := 7 to 22   // rax to r15
        invariant sp == top - 8 * k && Pushed(words, f, was, top, k)
      {
        sp := Push(sp, 0, f, was, top, k);
      }
    }

    /** `task_create`: the first frame goes to the top of the task's own stack, and nothing else changes. */
    method TaskCreate(i: nat, entry: u64)
      requires i < tasks.Length == MAX_TASKS && stacks + 17 * STACK_BYTES < U64
      modifies tasks, `words
      ensures tasks[..] == old(tasks[..][i := tasks[i].(rsp := CreatedRsp(stacks, i), active := true)])
      ensures var top := StackTop(stacks, i); Pushed(words, FirstFrame(top, entry), old(words), top, 22)
    {
      var sp := PushFirstFrame(StackTop(stacks, i), entry);
      tasks[i] := tasks[i].(rsp := sp, active := true);
    }

    /** Reading character `i` of a C string; past its NUL lies anything. */
    method PeekChar(text: seq<byte>, i: nat) returns (c: byte)
      ensures i < |text| ==> c == text[i]
      ensures i == |text| ==> c == 0
    {
      c := *;
      if i < |text| { c := text[i]; }
      if i == |text| { c := 0; }
    }

    method CopyTaskName(idx: nat, name: seq<byte>)
      requires idx < tasks.Length && |tasks[idx].name| == 32 && 0 !in name
      modifies tasks
      ensures tasks[..] == old(tasks[..][idx := tasks[idx].(name := CopiedName(tasks[idx].name, name))])
    {
      ghost var was := tasks[idx];
      var ou := 0;
      for i := 0 to 32
        invariant ou == 0 <==> i <= |name|
        invariant forall k :: 0 <= k < tasks.Length && k != idx ==> tasks[k] == old(tasks[k])
        invariant |tasks[idx].name| == 32 && tasks[idx] == was.(name := tasks[idx].name)
        invariant forall j :: 0 <= j < 32 ==>
          tasks[idx].name[j] == if j < i then CopiedName(was.name, name)[j] else was.name[j]
      {
        var c := PeekChar(name, i);
        if ou == 0 {
          tasks[idx] := tasks[idx].(name := tasks[idx].name[i := c]);
        }
        if c == 0 { ou := 1; }
      }
      assert tasks[idx].name == CopiedName(was.name, name);
    }

    method CopyRunPath(idx: nat, path: seq<byte>)
      requires idx < tasks.Length && |tasks[idx].path| == 1024 && 0 !in path
      modifies tasks
      ensures tasks[..] == old(tasks[..][idx := tasks[idx].(path := CopiedPath(tasks[idx].path, path))])
    {
      ghost var was := tasks[idx];
      var i := 0;
      while i < |path| && i < 1023
        invariant i <= PathLength(path)
        invariant forall k :: 0 <= k < tasks.Length && k != idx ==> tasks[k] == old(tasks[k])
        invariant |tasks[idx].path| == 1024 && tasks[idx] == was.(path := tasks[idx].path)
        invariant forall j :: 0 <= j < 1024 ==>
          tasks[idx].path[j] == if j < i then path[j] else was.path[j]
      {
        tasks[idx] := tasks[idx].(path := tasks[idx].path[i := path[i]]);
        i := i + 1;
      }
      tasks[idx] := tasks[idx].(path := tasks[idx].path[i := 0]);
      assert tasks[idx].path == CopiedPath(was.path, path);
    }

    /** Memory after a creation: the new task's stack holds the frame that starts it at `entry`; without a free slot
        nothing has changed. */
    ghost predicate StartsAt(words: map<nat, u64>, was: map<nat, u64>, i: nat, entry: u64)
      requires stacks + 17 * STACK_BYTES < U64
    {
      if i < MAX_TASKS then
        Pushed(words, FirstFrame(StackTop(stacks, i), entry), was, StackTop(stacks, i), 22)
      else words == was
    }

    /** `creat_task_path` */
    method CreatTaskPath(path: seq<byte>, name: seq<byte>, runTask: u64)
      requires Valid() && 0 !in path && 0 !in name
      modifies this`count, `words, tasks
      ensures Valid() && View() == old(Create(View(), stacks, path, name))
      ensures StartsAt(words, old(words), old(count), runTask)
    {
      if count >= MAX_TASKS { return; }
      CopyTaskName(count, name);
      CopyRunPath(count, path);
      TaskCreate(count, runTask);
      count := count + 1;
    }

    /** `creat_task_func`: a task without a run path. */
    method CreatTaskFunc(entry: u64, name: seq<byte>)
      requires Valid() && 0 !in name
      modifies this`count, `words, tasks
      ensures Valid() && View() == old(Create(View(), stacks, [], name))
      ensures StartsAt(words, old(words), old(count), entry)
    {
      if count >= MAX_TASKS { return; }
      CopyTaskName(count, name);
      assert tasks[count].path[0 := 0] == CopiedPath(tasks[count].path, []);
      tasks[count] := tasks[count].(path := tasks[count].path[0 := 0]);
      TaskCreate(count, entry);
      count := count + 1;
    }

    // -------------------------------------------------------------- deletion

    /** The length of a task's name as the search sees it, running on into the path. */
    method NameLength(i: nat) returns (n: nat)
      requires i < tasks.Length && TaskOk(tasks[i]) && 0 in tasks[i].path
      ensures n == |TaskName(tasks[i])|
    {
      ghost var all := tasks[i].name + tasks[i].path;
      assert 0 in all;
      ghost var stop :| 0 <= stop < |all| && all[stop] == 0;
      n := 0;
      while (if n < 32 then tasks[i].name[n] else tasks[i].path[n - 32]) != 0
        invariant n <= stop && 0 !in all[..n]
        decreases stop - n
      {
        assert all[..n + 1] == all[..n] + [all[n]];
        n := n + 1;
      }
      Entries.CStringIs(all, n);
    }

    method NameMatches(i: nat, name: seq<byte>) returns (same: bool)
      requires i < tasks.Length && TaskOk(tasks[i]) && 0 in tasks[i].path
      ensures same <==> TaskName(tasks[i]) == name
    {
      ghost var all := tasks[i].name + tasks[i].path;
      var length := NameLength(i);
      if length != |name| { return false; }
      var ou := 0;
      for i2 := 0 to length
        invariant ou == 0 <==> all[..i2] == name[..i2]
      {
        var c := if i2 < 32 then tasks[i].name[i2] else tasks[i].path[i2 - 32];
        assert all[..i2 + 1] == all[..i2] + [c] && name[..i2 + 1] == name[..i2] + [name[i2]];
        if c != name[i2] && ou == 0 {
          ou := 1;
        }
      }
      same := ou == 0;
    }

    /** `delet_task` */
    method DeletTask(name: seq<byte>)
      requires Valid()
      modifies tasks
      ensures Valid() && View() == old(Delete(View(), name))
    {
      if count >= MAX_TASKS { return; }
      for i := 0 to count
        invariant tasks[..] == old(tasks[..])
        invariant forall j :: 0 <= j < i ==> TaskName(tasks[j]) != name
      {
        var same := NameMatches(i, name);
        if same {
          FirstIs(tasks[..], count, name, i);
          tasks[i] := tasks[i].(active := false);
          return;
        }
      }
    }
  }

  lemma FirstIs(ts: seq<Task>, count: nat, name: seq<byte>, i: nat)
    requires i < count <= |ts| && TaskName(ts[i]) == name && forall j :: 0 <= j < i ==> TaskName(ts[j]) != name
    ensures FirstNamed(ts, count, name) == Some(i)
  {
  }
}
