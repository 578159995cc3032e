/** The driver's own calls on one VM directory, each on its own; VmLifecycle interleaves them. */
module Hypervisor {
  import opened Basics
  import opened Decimal
  import opened FileSystem

  /** How far StartVM gets: no spawner, a spawner that fails or returns nothing, a fork that fails,
      or a child. */
  datatype Spawn = NoSpawner | BuildFailed | NilCommand | ForkFailed | Forked(pid: int)

  /** StartVM up to the launch of its wait goroutine; a failing write of vm.pid is ignored. */
  method StartVM(host: Host, vmUUID: Path, spawn: Spawn, writeFails: bool) returns (r: Result<int>)
    modifies host
    ensures r.Ok? <==> vmUUID != [] && spawn.Forked?
    ensures r.Ok? ==> r.value == spawn.pid
    ensures host.tree == if r.Ok? && !writeFails
                         then Written(old(host.tree), PidFile(vmUUID), Raw(Itoa(spawn.pid)), host.maxHops)
                         else old(host.tree)
  {
    if vmUUID == [] {
      return Err("empty vmUUID");
    }
    match spawn {
      case NoSpawner => return Err("unsupported");
      case BuildFailed => return Err("build command");
      case NilCommand => return Err("nil cmd");
      case ForkFailed => return Err("fork");
      case Forked(pid) =>
        var _ := host.WriteFile(PidFile(vmUUID), Raw(Itoa(pid)), writeFails);
        return Ok(pid);
    }
  }

  /** What StopVM makes of vm.pid: nobody to signal, a process to signal, or an error. */
  function ProcessToStop(found: Stat): Result<Option<int>> {
    match found
    case Missing => Ok(None)
    case Failed => Err("read pid file")
    case Found(Raw(text)) =>
      (match Atoi(TrimSpace(text)) case Some(pid) => Ok(Some(pid)) case None => Err("parse pid"))
    case Found(_) => Err("parse pid")
  }

  /** StopVM: the pid it sends SIGTERM to, if any; the outcome of the signal is ignored. */
  method StopVM(host: Host, vmUUID: Path) returns (r: Result<Option<int>>)
    ensures r == if vmUUID == [] then Err("empty vmUUID") else ProcessToStop(host.Look(PidFile(vmUUID)))
    ensures var found := host.Look(vmUUID + ["vm.pid"]);
            && (r == Ok(None) <==> vmUUID != [] && found.Missing?)
            && (forall pid :: r == Ok(Some(pid)) <==>
                  vmUUID != [] && found.Found? && found.data.Raw? && Atoi(TrimSpace(found.data.bytes)) == Some(pid))
  {
    if vmUUID == [] {
      return Err("empty vmUUID");
    }
    var found := host.Look(PidFile(vmUUID));
    if found.Missing? {
      return Ok(None);
    }
    if found.Failed? {
      return Err("read pid file");
    }
    if !found.data.Raw? {
      return Err("parse pid");
    }
    match Atoi(TrimSpace(found.data.bytes)) {
      case None => return Err("parse pid");
      case Some(pid) => return Ok(Some(pid));
    }
  }

  /** The goroutine StartVM launches, from the moment the child is gone: it removes vm.pid, and then
      calls OnVMExit if there is one. */
  method WaitForExit(host: Host, vmUUID: Path, hook: bool) returns (exits: seq<Path>)
    modifies host
    ensures host.tree == old(host.tree) - {PidFile(vmUUID)}
    ensures exits == if hook then [vmUUID] else []
  {
    host.Remove(PidFile(vmUUID));
    exits := [];
    if hook {
      exits := [vmUUID];
    }
  }

  /** DeleteVM: os.RemoveAll, which removes what it can; `stuck` is what the kernel will not let go. */
  method DeleteVM(host: Host, vmUUID: Path, stuck: set<Path>) returns (ok: bool)
    modifies host
    ensures ok <==> vmUUID != [] && forall p | p in old(host.tree) && vmUUID <= p :: p !in stuck
    ensures vmUUID == [] ==> host.tree == old(host.tree)
    ensures vmUUID != [] ==> SameOutside(old(host.tree), host.tree, vmUUID)
    ensures vmUUID != [] ==> forall p | p in host.tree && vmUUID <= p :: p in stuck
    ensures forall p | p in host.tree :: p in old(host.tree) && host.tree[p] == old(host.tree)[p]
  {
    if vmUUID == [] {
      return false;
    }
    ok := forall p | p in host.tree :: vmUUID <= p ==> p !in stuck;
    host.tree := map p | p in host.tree && (vmUUID <= p ==> p in stuck) :: host.tree[p];
  }

  /** StopVM after StartVM signals exactly the process that was forked, for every pid the platform
      can have and even through links; and once vm.pid is removed it finds nobody. */
  lemma StopFindsStarted(t: Tree, dir: Path, pid: int, hops: nat)
    requires MIN_INT64 <= pid <= MAX_INT64 && Final(t, PidFile(dir), hops).Some?
    ensures var u := Written(t, PidFile(dir), Raw(Itoa(pid)), hops);
            && ProcessToStop(StatOf(u, PidFile(dir), hops)) == Ok(Some(pid))
            && ProcessToStop(StatOf(u - {PidFile(dir)}, PidFile(dir), hops)) == Ok(None)
  {
    WrittenIsFound(t, PidFile(dir), Raw(Itoa(pid)), hops);
    AtoiOfItoa(pid);
  }

  /** What is written for one VM directory is not found in another, unless a link leads there. */
  lemma OtherDirectoriesUntouched(t: Tree, dir: Path, other: Path, pid: int, hops: nat)
    requires dir != other
    requires PidFile(dir) !in t || t[PidFile(dir)].File?
    requires PidFile(other) !in t || t[PidFile(other)].File?
    ensures var u := Written(t, PidFile(dir), Raw(Itoa(pid)), hops);
            StatOf(u, PidFile(other), hops) == StatOf(t, PidFile(other), hops)
  {
    assert PidFile(dir)[..|PidFile(dir)| - 1] == dir && PidFile(other)[..|PidFile(other)| - 1] == other;
  }
}
