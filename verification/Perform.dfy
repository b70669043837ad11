/** Each event of the runs that the theorems are about is a call of the kernel. */
module Perform {
  import opened Bytes
  import opened Disk
  import opened Paths
  import Table
  import opened PathNames
  import opened FileSystem
  import FileData
  import PathCalls
  import Calls
  import opened Tasks
  import Scheduler
  import opened FrameAllocator

  // ---------------------------------------------------------------- file system calls

  /** The kernel's fixed buffers have room for the call's paths. */
  ghost predicate Feasible(m: Image, c: FileSystem.Call)
    requires ImageOk(m) && Legal(c)
  {
    match c
    case Mk(p, cur) => Calls.Usable(m, p, cur)
    case Mkdir(p, cur) => Calls.Usable(m, p, cur)
    case Write(p, _, cur) => Calls.Usable(m, p, cur)
    case Rm(p, _) => 0 !in p
    case Rmdir(p, _) => 0 !in p
    case Copy(src, dst, cur) => Calls.CopyUsable(m, src, dst, cur)
    case Mount => true
  }

  /** One event of a run of file system calls. */
  method FileSystemCall(v: Volume, s: PathCalls.Scratch, c: FileSystem.Call)
    requires Calls.Ready(v) && s.Idle() && Legal(c) && Feasible(v.Img(), c)
    modifies v`lba, s`point, s`firstOne, s.rows, s.absRes
    ensures Calls.Ready(v) && s.Idle()
    ensures v.Img() == FileSystem.Step(old(v.Img()), c)
  {
    hide MkFile, MkDir, WriteFile, RmFileById, RmDirById, CopyFile, Calls.Usable, Calls.CopyUsable, ImageOf;
    match c
    case Mk(p, cur) => var r := Calls.FsMkFile(v, s, p, cur);
    case Mkdir(p, cur) => var r := Calls.FsMkDir(v, s, p, cur);
    case Write(p, data, cur) =>
      var src := if data == [] then [0] else data;
      DataGiven(data);
      var r := Calls.FsWriteFile(v, s, p, src, |data|, cur);
    case Rm(p, cur) => var r := Calls.FsRmFile(v, p, cur);
    case Rmdir(p, cur) => var r := Calls.FsRmDir(v, p, cur);
    case Copy(src, dst, cur) => var r := Calls.FsCopyFile(v, s, src, dst, cur);
    case Mount => Reload(v);
  }

  lemma DataGiven(data: seq<byte>)
    requires |data| < U64
    ensures FileData.DataOf(if data == [] then [0] else data, |data|) == data
  {
  }

  method Reload(v: Volume)
    requires Calls.Ready(v)
    modifies v`lba
    ensures Calls.Ready(v) && v.Img() == Remount(old(v.Img()))
  {
    RemountChangesNothing(v.Img());
    Table.ReloadLastIdToDisk(v);
  }

  // ---------------------------------------------------------------- task events

  /** One event of a run of tasks. */
  method TaskEvent(k: Scheduler.Kernel, e: Event, runTask: u64)
    requires k.Valid() && Possible(k.View(), e) && (e.Start? ==> 0 !in e.path && 0 !in e.name)
    modifies k, k.tasks
    ensures k.Valid() && k.View() == Tasks.Step(old(k.View()), e, k.stacks)
  {
    match e
    case Tick(rsp) => var r := k.Schedule(rsp);
    case Exit(rsp) => var r := k.TaskExit(rsp);
    case Start(path, name) => k.CreatTaskPath(path, name, runTask);
    case Stop(name) => k.DeletTask(name);
  }

  // ---------------------------------------------------------------- frames

  /** One event of a run of the frame allocator. */
  method FrameAction(p: Pmm, a: Action, ghost s: Frames, ghost all: set<nat>) returns (ghost s': Frames)
    requires p.Placed() && s == Frames(p.mem[..], p.phys, p.size, p.total, s.held)
    requires Partition(s, all) && Allowed(s, a)
    modifies p.mem
    ensures p.Placed() && s' == Act(s, a, all) == Frames(p.mem[..], p.phys, p.size, p.total, s'.held)
  {
    s' := Act(s, a, all);
    match a
    case Take => var r := p.AllocFrame();
    case Give(fa) =>
      assert fa / FRAME in all;
      p.FreeFrame(fa);
    case Poke(address, value) => p.mem[address] := value;
  }
}
