/** The driver's calls on one VM directory, one after the other: the methods themselves, run in any
    order, do to the files what the operations of Identity say, and so keep the VM's identity. */
module DriverCalls {
  import opened Basics
  import opened FileSystem
  import opened Identity
  import BackingFiles
  import Decimal
  import DevicePlan
  import Hypervisor

  /** One call, and what the world answers to it. */
  datatype Call =
    | CreateVM(supply: Supply, fails: set<Part>, mkdir: bool)
    | BuildConfig(graphics: bool, f: DevicePlan.Foreign)
    | StartVM(spawn: Hypervisor.Spawn, writeFails: bool)
    | ChildExits(hook: bool)
    | StopVM
    | AttachDisk(backing: Path, gib: int, mkdir: bool, image: bool, left: Option<Content>)

  /** What a call does to the files, in terms of Identity's operations: one of them, or nothing. */
  function OpsOf(t: Tree, dir: Path, call: Call, hops: nat): seq<Op> {
    match call
    case CreateVM(supply, fails, mkdir) => if dir != [] && mkdir then [Create(supply, fails)] else []
    case BuildConfig(_, f) =>
      var boot := DevicePlan.BootOf(t, dir, DevicePlan.ConfigIn(t, dir, hops), f, hops);
      [Build(boot.Efi?, f.blankStore, f.efiStore)]
    case StartVM(spawn, writeFails) =>
      if dir != [] && spawn.Forked? && !writeFails then [WritePid(Decimal.Itoa(spawn.pid))] else []
    case ChildExits(_) => [RemovePid]
    case StopVM => []
    case AttachDisk(backing, gib, mkdir, image, left) =>
      var op := BackingFiles.Attach("vm", backing, gib, mkdir, image, left);
      if !BackingFiles.Asks(t, op, hops) then []
      else
        var image := Some(Blank(BackingFiles.SizeBytes(gib)));
        [Attach(backing, if BackingFiles.Creates(t, op, hops) then image else left)]
  }

  lemma RunOne(t: Tree, dir: Path, op: Op, hops: nat)
    ensures Run(t, dir, [op], hops) == Next(t, dir, op, hops)
    ensures Run(t, dir, [], hops) == t
  {
    assert [op][..0] == [];
  }

  lemma AttachIsOp(t: Tree, dir: Path, call: Call, hops: nat)
    requires call.AttachDisk?
    ensures var op := BackingFiles.Attach("vm", call.backing, call.gib, call.mkdir, call.image, call.left);
            BackingFiles.Next(t, op, hops) == Run(t, dir, OpsOf(t, dir, call, hops), hops)
  {
    var ops := OpsOf(t, dir, call, hops);
    if ops != [] { RunOne(t, dir, ops[0], hops); }
  }

  /** Performs one call. */
  method Perform(host: Host, dir: Path, call: Call)
    modifies host
    ensures host.tree == Run(old(host.tree), dir, OpsOf(old(host.tree), dir, call, host.maxHops), host.maxHops)
  {
    ghost var ops := OpsOf(host.tree, dir, call, host.maxHops);
    if ops != [] { RunOne(host.tree, dir, ops[0], host.maxHops); }
    match call {
      case CreateVM(supply, fails, mkdir) =>
        var _ := Identity.CreateVM(host, dir, supply, fails, mkdir);
      case BuildConfig(graphics, f) =>
        var _ := DevicePlan.BuildVZConfigFromDir(host, dir, graphics, f);
      case StartVM(spawn, writeFails) =>
        var _ := Hypervisor.StartVM(host, dir, spawn, writeFails);
      case ChildExits(hook) =>
        var _ := Hypervisor.WaitForExit(host, dir, hook);
      case StopVM =>
        var _ := Hypervisor.StopVM(host, dir);
      case AttachDisk(backing, gib, mkdir, image, left) =>
        AttachIsOp(host.tree, dir, call, host.maxHops);
        var _ := BackingFiles.AttachDisk(host, "vm", backing, gib, mkdir, image, left);
    }
  }

  lemma RunAppends(t: Tree, dir: Path, done: seq<Op>, more: seq<Op>, hops: nat)
    requires |more| <= 1
    ensures Run(t, dir, done + more, hops) == Run(Run(t, dir, done, hops), dir, more, hops)
  {
    if more == [] {
      assert done + more == done;
    } else {
      assert (done + more)[..|done|] == done && more[..0] == [];
    }
  }

  /** Performs any calls one after the other: no identity file that exists is rewritten or removed. */
  method PerformAll(host: Host, dir: Path, calls: seq<Call>) returns (ghost ops: seq<Op>)
    requires NoLinks(host.tree, dir)
    modifies host
    ensures host.tree == Run(old(host.tree), dir, ops, host.maxHops) && NoLinks(host.tree, dir)
    ensures forall part | FileOf(dir, part) in old(host.tree) ::
              FileOf(dir, part) in host.tree && host.tree[FileOf(dir, part)] == old(host.tree)[FileOf(dir, part)]
  {
    ops := [];
    for k := 0 to |calls|
      invariant host.tree == Run(old(host.tree), dir, ops, host.maxHops)
    {
      ghost var more := OpsOf(host.tree, dir, calls[k], host.maxHops);
      Perform(host, dir, calls[k]);
      RunAppends(old(host.tree), dir, ops, more, host.maxHops);
      ops := ops + more;
    }
    RunKeepsNoLinks(old(host.tree), dir, ops, host.maxHops);
    forall part | FileOf(dir, part) in old(host.tree)
      ensures FileOf(dir, part) in host.tree && host.tree[FileOf(dir, part)] == old(host.tree)[FileOf(dir, part)]
    {
      assert ops[..0] == [];
      IdentityIsStable(old(host.tree), dir, ops, host.maxHops, part, 0);
    }
  }
}
