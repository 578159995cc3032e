/** The provision subcommand: a VM directory laid out from prebuilt artefacts. */
module Provision {
  import opened Basics
  import opened FileSystem
  import opened Identity
  import Decimal

  /** What clonefile(2) answers. */
  datatype CloneResult = Cloned | Unsupported | CloneFailed

  /** What else the kernel does to one placement: `fails` is a failing symlink, open or copy, and
      `left` what the copy had written when it broke off. */
  datatype Io = Io(clone: CloneResult, fails: bool, left: Content)

  /** The effect of placing `src` at `dst`, if it can be done. */
  function Placed(t: Tree, src: Path, dst: Path, copyMode: bool, hops: nat): Option<Tree> {
    if !StatOf(t, src, hops).Found? then None
    else
      var cleared := t - {dst};
      if !copyMode then Some(cleared[dst := Link(src)])
      else
        match StatOf(cleared, src, hops)
        case Found(data) => Some(cleared[dst := File(data)])
        case _ => None
  }

  predicate Works(io: Io, copyMode: bool) {
    if copyMode then io.clone.Cloned? || (io.clone.Unsupported? && !io.fails) else !io.fails
  }

  /** placeArtefact: a symlink, or a clone with a byte copy to fall back on. */
  method PlaceArtefact(host: Host, src: Path, dst: Path, copyMode: bool, io: Io) returns (ok: bool)
    modifies host
    ensures ok <==> Works(io, copyMode) && Placed(old(host.tree), src, dst, copyMode, host.maxHops).Some?
    ensures ok ==> Placed(old(host.tree), src, dst, copyMode, host.maxHops) == Some(host.tree)
    ensures var was, found := old(host.tree), StatOf(old(host.tree), src, host.maxHops).Found?;
            var source := StatOf(was - {dst}, src, host.maxHops); // removing dst may have cut the source off
            && (!copyMode ==> (ok <==> found && !io.fails))
            && (copyMode ==> (ok <==> found && source.Found?
                                      && (io.clone == Cloned || (io.clone == Unsupported && !io.fails))))
            && (ok && !copyMode ==> host.tree == was[dst := Link(src)])
            && (ok && copyMode ==> host.tree == was[dst := File(source.data)])
            && (!found ==> host.tree == was)
    ensures host.tree - {dst} == old(host.tree) - {dst}
  {
    if !host.Look(src).Found? {
      return false;
    }
    host.Remove(dst);
    if !copyMode {
      ok := host.Symlink(src, dst, io.fails);
      return;
    }
    var found := host.Look(src);
    if io.clone.CloneFailed? || !found.Found? {
      return false;
    }
    if io.clone.Unsupported? && io.fails {
      var _ := host.WriteFile(dst, io.left, false);
      return false;
    }
    ok := host.WriteFile(dst, found.data, false);
  }

  function DataName(i: nat): string { "data-" + Decimal.Digits(i) + ".img" }

  function DataNames(n: nat): seq<string> { seq(n, i requires 0 <= i < n => DataName(i)) }

  /** The data disks placed one after the other, each under its number. */
  function DisksPlaced(t: Tree, vmDir: Path, srcs: seq<Path>, copyMode: bool, hops: nat): Option<Tree> {
    if srcs == [] then Some(t)
    else
      match DisksPlaced(t, vmDir, srcs[..|srcs| - 1], copyMode, hops)
      case None => None
      case Some(u) => Placed(u, srcs[|srcs| - 1], vmDir + [DataName(|srcs| - 1)], copyMode, hops)
  }

  datatype Args = Args(vmDir: Path, image: Path, dataDisks: seq<Path>, cidata: Option<Path>,
                       cpu: nat, memGiB: nat, copyMode: bool)

  function ConfigFor(a: Args): VmConfig { VmConfig(DataNames(|a.dataDisks|), a.cpu, a.memGiB, "", [], false) }

  function ArtefactsPlaced(t: Tree, a: Args, hops: nat): Option<Tree> {
    match Placed(t, a.image, a.vmDir + ["disk.img"], a.copyMode, hops)
    case None => None
    case Some(t1) =>
      match DisksPlaced(t1, a.vmDir, a.dataDisks, a.copyMode, hops)
      case None => None
      case Some(t2) =>
        match a.cidata
        case None => Some(t2)
        case Some(iso) => Placed(t2, iso, a.vmDir + ["cloud-init.iso"], a.copyMode, hops)
  }

  function IdentityWiped(t: Tree, dir: Path): Tree {
    t - {FileOf(dir, Nvram)} - {FileOf(dir, MachineId)} - {FileOf(dir, Mac)}
  }

  /** The whole layout, if every step can be done. */
  function Provisioned(t: Tree, a: Args, supply: Supply, fails: set<Part>, hops: nat): Option<Tree> {
    match ArtefactsPlaced(t, a, hops)
    case None => None
    case Some(t1) =>
      var (t2, ok) := Created(IdentityWiped(t1, a.vmDir), a.vmDir, supply, fails, hops);
      var cfg := a.vmDir + ["config.json"];
      if ok && Final(t2, cfg, hops).Some? then Some(Written(t2, cfg, Config(ConfigFor(a)), hops)) else None
  }

  lemma {:induction false} EarlierDisksPlaced(t: Tree, vmDir: Path, srcs: seq<Path>, copyMode: bool, hops: nat, n: nat)
    requires n <= |srcs| && DisksPlaced(t, vmDir, srcs, copyMode, hops).Some?
    ensures DisksPlaced(t, vmDir, srcs[..n], copyMode, hops).Some?
    decreases |srcs|
  {
    if n == |srcs| {
      assert srcs[..n] == srcs;
    } else {
      assert srcs[..|srcs| - 1][..n] == srcs[..n];
      EarlierDisksPlaced(t, vmDir, srcs[..|srcs| - 1], copyMode, hops, n);
    }
  }

  /** The kernel lets every one of the first `n` data disks be placed. */
  predicate DisksWork(vmDir: Path, n: nat, copyMode: bool, io: Path -> Io) {
    forall k | 0 <= k < n :: Works(io(vmDir + [DataName(k)]), copyMode)
  }

  predicate ArtefactsWork(a: Args, io: Path -> Io) {
    && Works(io(a.vmDir + ["disk.img"]), a.copyMode)
    && DisksWork(a.vmDir, |a.dataDisks|, a.copyMode, io)
    && (a.cidata.Some? ==> Works(io(a.vmDir + ["cloud-init.iso"]), a.copyMode))
  }

  lemma NextWorks(vmDir: Path, i: nat, n: nat, copyMode: bool, io: Path -> Io)
    requires i < n && DisksWork(vmDir, i, copyMode, io)
    ensures Works(io(vmDir + [DataName(i)]), copyMode) <==> DisksWork(vmDir, i + 1, copyMode, io)
    ensures DisksWork(vmDir, n, copyMode, io) ==> DisksWork(vmDir, i + 1, copyMode, io)
    ensures DataNames(i + 1) == DataNames(i) + [DataName(i)]
  {
  }

  lemma NextDisk(t: Tree, vmDir: Path, srcs: seq<Path>, copyMode: bool, hops: nat, i: nat, u: Tree)
    requires i < |srcs| && DisksPlaced(t, vmDir, srcs[..i], copyMode, hops) == Some(u)
    ensures DisksPlaced(t, vmDir, srcs[..i + 1], copyMode, hops)
            == Placed(u, srcs[i], vmDir + [DataName(i)], copyMode, hops)
  {
    assert srcs[..i + 1][..i] == srcs[..i];
  }

  /** One disk that cannot be placed stops the loop for good. */
  lemma DiskStops(t: Tree, vmDir: Path, srcs: seq<Path>, copyMode: bool, hops: nat, i: nat, u: Tree)
    requires i < |srcs| && DisksPlaced(t, vmDir, srcs[..i], copyMode, hops) == Some(u)
    requires Placed(u, srcs[i], vmDir + [DataName(i)], copyMode, hops).None?
    ensures DisksPlaced(t, vmDir, srcs, copyMode, hops).None?
  {
    NextDisk(t, vmDir, srcs, copyMode, hops, i, u);
    if DisksPlaced(t, vmDir, srcs, copyMode, hops).Some? {
      EarlierDisksPlaced(t, vmDir, srcs, copyMode, hops, i + 1);
    }
  }

  /** The loop over --data-disk. */
  method PlaceDataDisks(host: Host, vmDir: Path, srcs: seq<Path>, copyMode: bool, io: Path -> Io)
    returns (ok: bool, disks: seq<string>)
    modifies host
    ensures ok <==> DisksWork(vmDir, |srcs|, copyMode, io)
                    && DisksPlaced(old(host.tree), vmDir, srcs, copyMode, host.maxHops).Some?
    ensures ok ==> DisksPlaced(old(host.tree), vmDir, srcs, copyMode, host.maxHops) == Some(host.tree)
    ensures ok ==> disks == DataNames(|srcs|)
    ensures ok ==> forall i | 0 <= i < |srcs| :: disks[i] == "data-" + Decimal.Itoa(i) + ".img"
  {
    disks := [];
    for i := 0 to |srcs|
      invariant disks == DataNames(i) && DisksWork(vmDir, i, copyMode, io)
      invariant DisksPlaced(old(host.tree), vmDir, srcs[..i], copyMode, host.maxHops) == Some(host.tree)
    {
      var name := DataName(i);
      ghost var before := host.tree;
      NextWorks(vmDir, i, |srcs|, copyMode, io);
      NextDisk(old(host.tree), vmDir, srcs, copyMode, host.maxHops, i, before);
      var placed := PlaceArtefact(host, srcs[i], vmDir + [name], copyMode, io(vmDir + [name]));
      if !placed {
        if Works(io(vmDir + [name]), copyMode) {
          DiskStops(old(host.tree), vmDir, srcs, copyMode, host.maxHops, i, before);
        }
        return false, disks;
      }
      disks := disks + [name];
    }
    assert srcs[..|srcs|] == srcs;
    return true, disks;
  }

  /** The artefacts, up to the first that cannot be placed. */
  method PlaceArtefacts(host: Host, a: Args, io: Path -> Io) returns (ok: bool, disks: seq<string>)
    modifies host
    ensures ok <==> ArtefactsWork(a, io) && ArtefactsPlaced(old(host.tree), a, host.maxHops).Some?
    ensures ok ==> ArtefactsPlaced(old(host.tree), a, host.maxHops) == Some(host.tree)
    ensures ok ==> disks == DataNames(|a.dataDisks|)
  {
    disks := [];
    var boot := a.vmDir + ["disk.img"];
    ok := PlaceArtefact(host, a.image, boot, a.copyMode, io(boot));
    if !ok {
      return;
    }
    ok, disks := PlaceDataDisks(host, a.vmDir, a.dataDisks, a.copyMode, io);
    if !ok {
      return;
    }
    if a.cidata.Some? {
      var iso := a.vmDir + ["cloud-init.iso"];
      ok := PlaceArtefact(host, a.cidata.value, iso, a.copyMode, io(iso));
    }
  }

  /** The RunE of the provision command: it succeeds exactly when the layout can be made and nothing
      in the kernel, the generators or the last write fails. */
  method Provision(host: Host, a: Args, mkdir: bool, io: Path -> Io, supply: Supply, fails: set<Part>,
                   configFails: bool)
    returns (ok: bool)
    modifies host
    ensures ok <==> a.vmDir != [] && a.image != [] && mkdir && ArtefactsWork(a, io) && !configFails
                    && Provisioned(old(host.tree), a, supply, fails, host.maxHops).Some?
    ensures ok ==> Provisioned(old(host.tree), a, supply, fails, host.maxHops) == Some(host.tree)
    ensures a.vmDir == [] || a.image == [] || !mkdir ==> !ok && host.tree == old(host.tree)
  {
    if a.vmDir == [] || a.image == [] || !mkdir {
      return false;
    }
    var disks;
    ok, disks := PlaceArtefacts(host, a, io);
    if !ok {
      return;
    }
    host.Remove(FileOf(a.vmDir, Nvram));
    host.Remove(FileOf(a.vmDir, MachineId));
    host.Remove(FileOf(a.vmDir, Mac));
    ok := CreateVM(host, a.vmDir, supply, fails, true);
    if !ok {
      return;
    }
    var cfg := VmConfig(disks, a.cpu, a.memGiB, "", [], false);
    ok := host.WriteFile(a.vmDir + ["config.json"], Config(cfg), configFails);
  }

  predicate NoLinkAt(t: Tree, p: Path) { p in t ==> t[p].File? }

  lemma CreatedParts(t: Tree, dir: Path, supply: Supply, fails: set<Part>, hops: nat)
    requires forall part :: FileOf(dir, part) !in t
    ensures var (u, ok) := Created(t, dir, supply, fails, hops);
            ok ==> u == t[FileOf(dir, Nvram) := File(supply(Nvram))][FileOf(dir, MachineId) := File(supply(MachineId))]
                         [FileOf(dir, Mac) := File(supply(Mac))]
    ensures FileOf(dir, Nvram) != FileOf(dir, MachineId) && FileOf(dir, MachineId) != FileOf(dir, Mac)
    ensures FileOf(dir, Mac) != FileOf(dir, Nvram)
  {
    NamesDistinct(dir, Nvram);
    NamesDistinct(dir, MachineId);
  }

  lemma CreatedAnew(t: Tree, dir: Path, supply: Supply, fails: set<Part>, hops: nat)
    requires forall part :: FileOf(dir, part) !in t
    ensures var (u, ok) := Created(t, dir, supply, fails, hops);
            ok ==> forall part :: FileOf(dir, part) in u && u[FileOf(dir, part)] == File(supply(part))
  {
    forall part: Part
      ensures FileOf(dir, part) !in t ==> NoLinkAt(t, FileOf(dir, part))
    {
    }
    CreatedKeeps(t, dir, supply, fails, hops);
    CreatedParts(t, dir, supply, fails, hops);
  }

  lemma ConfigApart(dir: Path)
    ensures forall part :: FileOf(dir, part) != dir + ["config.json"]
  {
    forall part
      ensures FileOf(dir, part) != dir + ["config.json"]
    {
      assert FileOf(dir, part)[|dir|] == NameOf(part) && (dir + ["config.json"])[|dir|] == "config.json";
      assert |"nvram.bin"| == 9 && |"machine-id.bin"| == 14 && |"mac.txt"| == 7 && |"config.json"| == 11;
    }
  }

  /** Provisioning a directory that already had a VM gives it a new identity: whatever was there before,
      the three files hold what was generated this time. */
  lemma ProvisionRenewsIdentity(t: Tree, a: Args, supply: Supply, fails: set<Part>, hops: nat)
    requires Provisioned(t, a, supply, fails, hops).Some?
    requires ArtefactsPlaced(t, a, hops).Some? && NoLinkAt(ArtefactsPlaced(t, a, hops).value, a.vmDir + ["config.json"])
    ensures var u := Provisioned(t, a, supply, fails, hops).value;
            && (forall part :: FileOf(a.vmDir, part) in u && u[FileOf(a.vmDir, part)] == File(supply(part)))
            && a.vmDir + ["config.json"] in u && u[a.vmDir + ["config.json"]] == File(Config(ConfigFor(a)))
  {
    var t1 := IdentityWiped(ArtefactsPlaced(t, a, hops).value, a.vmDir);
    CreatedAnew(t1, a.vmDir, supply, fails, hops);
    CreatedParts(t1, a.vmDir, supply, fails, hops);
    ConfigApart(a.vmDir);
  }
}
