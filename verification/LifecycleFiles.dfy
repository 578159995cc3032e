/** The lifecycle's steps on vm.pid are the driver's methods on the file system. */
module LifecycleFiles {
  import opened Basics
  import opened FileSystem
  import opened VmLifecycle
  import opened Decimal
  import Hypervisor

  /** The files show the vm.pid of every directory just as the lifecycle's state has it. */
  ghost predicate Shows(t: Tree, s: State) {
    forall d: Path ::
      (d in s.pidFile <==> PidFile(d) in t) && (d in s.pidFile ==> t[PidFile(d)] == File(Raw(s.pidFile[d])))
  }

  lemma PidFilesApart(a: Path, b: Path)
    ensures PidFile(a) == PidFile(b) ==> a == b
  {
    assert PidFile(a)[..|a|] == a && PidFile(b)[..|b|] == b;
    assert |PidFile(a)| == |a| + 1 && |PidFile(b)| == |b| + 1;
  }

  lemma WrittenShows(t: Tree, s: State, dir: Path, text: Bytes, hops: nat)
    requires Shows(t, s)
    ensures Shows(Written(t, PidFile(dir), Raw(text), hops), s.(pidFile := s.pidFile[dir := text]))
  {
    assert Final(t, PidFile(dir), hops) == Some(PidFile(dir));
    forall d: Path
      ensures PidFile(d) == PidFile(dir) <==> d == dir
    {
      PidFilesApart(d, dir);
    }
  }

  lemma RemovedShows(t: Tree, s: State, dir: Path)
    requires Shows(t, s)
    ensures Shows(t - {PidFile(dir)}, s.(pidFile := s.pidFile - {dir}))
  {
    forall d: Path
      ensures PidFile(d) == PidFile(dir) <==> d == dir
    {
      PidFilesApart(d, dir);
    }
  }

  lemma DeletedShows(t: Tree, u: Tree, s: State, dir: Path)
    requires Shows(t, s) && SameOutside(t, u, dir) && forall d | d in s.pidFile :: !(dir <= PidFile(d))
    requires forall p | p in u :: p in t && u[p] == t[p]
    ensures Shows(u, s)
  {
    forall d: Path
      ensures (d in s.pidFile <==> PidFile(d) in u) && (d in s.pidFile ==> u[PidFile(d)] == File(Raw(s.pidFile[d])))
    {
    }
  }

  lemma SameShows(t: Tree, s: State, u: State)
    requires Shows(t, s) && u.pidFile == s.pidFile
    ensures Shows(t, u)
  {
  }

  /** No other step changes a vm.pid. */
  lemma PidFilesStay(s: State, step: Step)
    requires Next(s, step, PidFileAbsent).Some? && !step.WritePid? && !step.Remove?
    ensures Next(s, step, PidFileAbsent).value.pidFile == s.pidFile
  {
    if step.Delete? {
      assert s.pidFile - {step.dir} == s.pidFile;
    }
  }

  /** The method that does what a step of the lifecycle does to the files, if any does. */
  method Perform(host: Host, ghost s: State, step: Step, dir: Path, pid: int) returns (stop: Result<Option<int>>)
    requires Shows(host.tree, s) && Next(s, step, PidFileAbsent).Some? && dir != []
    requires step.WritePid? ==> s.children[step.g].dir == dir && s.children[step.g].pid == pid
    requires step.Remove? ==> s.children[step.g].dir == dir
    requires step.ReadPid? ==> step.dir == dir
    requires step.Delete? ==> step.dir == dir && forall d | d in s.pidFile :: !(dir <= PidFile(d)) // none is nested
    modifies host
    ensures Shows(host.tree, Next(s, step, PidFileAbsent).value)
    ensures step.ReadPid? ==> stop == if dir !in s.pidFile then Ok(None)
                                      else match Atoi(TrimSpace(s.pidFile[dir]))
                                           case None => Err("parse pid")
                                           case Some(pid) => Ok(Some(pid))
  {
    stop := Ok(None);
    if step.WritePid? {
      WrittenShows(host.tree, s, dir, Itoa(pid), host.maxHops);
      var _ := Hypervisor.StartVM(host, dir, Hypervisor.Forked(pid), false);
      SameShows(host.tree, s.(pidFile := s.pidFile[dir := Itoa(pid)]), Next(s, step, PidFileAbsent).value);
    } else if step.Remove? {
      RemovedShows(host.tree, s, dir);
      var _ := Hypervisor.WaitForExit(host, dir, true);
      SameShows(host.tree, s.(pidFile := s.pidFile - {dir}), Next(s, step, PidFileAbsent).value);
    } else {
      if step.Delete? {
        ghost var before := host.tree;
        var _ := Hypervisor.DeleteVM(host, dir, {});
        DeletedShows(before, host.tree, s, dir);
      } else if step.ReadPid? {
        stop := Hypervisor.StopVM(host, dir);
        assert Final(host.tree, PidFile(dir), host.maxHops) == Some(PidFile(dir));
      }
      PidFilesStay(s, step);
      SameShows(host.tree, s, Next(s, step, PidFileAbsent).value);
    }
  }
}
