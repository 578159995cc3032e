/** The device plan that vz-vm-run builds from the files of a VM directory. */
module DevicePlan {
  import opened Basics
  import opened FileSystem
  import opened Identity

  /** A virtio block device. */
  datatype Disk = Disk(path: Path, readOnly: bool)

  datatype Boot = Linux(kernel: Path, cmdline: string, initrd: Option<Path>) | Efi(store: Path)

  /** Without a usable mac.txt the framework picks an address. */
  datatype Plan = Plan(boot: Boot, machineId: Content, storage: seq<Disk>, mac: Option<Content>, cpu: nat,
                       memory: nat, shares: seq<Share>, graphics: bool)

  /** Which calls into the framework succeed. A disk attachment also needs its file. */
  datatype Foreign = Foreign(linux: bool, efiStore: bool, efiBoot: bool, blankStore: Content, machineId: bool,
                             disk: Disk -> bool, share: Share -> bool, mac: Content -> bool, rest: bool)

  const DEFAULT_CMDLINE: string := "console=hvc0 root=/dev/vda2 rw"

  /** config.json as read; anything unreadable counts as an empty record. */
  function ConfigIn(t: Tree, dir: Path, hops: nat): VmConfig {
    match StatOf(t, dir + ["config.json"], hops)
    case Found(Config(cfg)) => cfg
    case _ => NO_CONFIG
  }

  function MicroVmFlag(t: Tree, dir: Path, hops: nat): bool { ConfigIn(t, dir, hops).microvm }

  /** The writable disk.img, or else the read-only boot.iso, or else nothing. */
  function Primary(t: Tree, dir: Path, hops: nat): seq<Disk> {
    if StatOf(t, dir + ["disk.img"], hops).Found? then [Disk(dir + ["disk.img"], false)]
    else if StatOf(t, dir + ["boot.iso"], hops).Found? then [Disk(dir + ["boot.iso"], true)]
    else []
  }

  function DataDisks(dir: Path, names: seq<string>): seq<Disk> {
    seq(|names|, k requires 0 <= k < |names| => Disk(dir + [names[k]], false))
  }

  function Seed(t: Tree, dir: Path, hops: nat): seq<Disk> {
    if StatOf(t, dir + ["cloud-init.iso"], hops).Found? then [Disk(dir + ["cloud-init.iso"], true)] else []
  }

  function Storage(t: Tree, dir: Path, cfg: VmConfig, hops: nat): seq<Disk> {
    Primary(t, dir, hops) + DataDisks(dir, cfg.dataDisks) + Seed(t, dir, hops)
  }

  predicate Attachable(t: Tree, d: Disk, f: Foreign, hops: nat) { StatOf(t, d.path, hops).Found? && f.disk(d) }

  predicate AllAttachable(t: Tree, disks: seq<Disk>, f: Foreign, hops: nat) {
    forall k | 0 <= k < |disks| :: Attachable(t, disks[k], f, hops)
  }

  predicate ShareOk(s: Share, f: Foreign) { s.tag != "" && s.path != "" && f.share(s) }

  /** 64-bit bytes of memory; the multiplication wraps. */
  function Memory(cfg: VmConfig): nat {
    if cfg.memGiB > 0 then cfg.memGiB * 1024 * 1024 * 1024 % WORD else 2 * 1024 * 1024 * 1024
  }

  function BootOf(t: Tree, dir: Path, cfg: VmConfig, f: Foreign, hops: nat): Boot {
    if StatOf(t, dir + ["kernel"], hops).Found? && f.linux then
      Linux(dir + ["kernel"], if cfg.cmdline != "" then cfg.cmdline else DEFAULT_CMDLINE,
            if StatOf(t, dir + ["initrd"], hops).Found? then Some(dir + ["initrd"]) else None)
    else Efi(FileOf(dir, Nvram))
  }

  /** Opening the EFI store creates it where there is none, and never touches one that is there. */
  function StoreOpened(t: Tree, dir: Path, boot: Boot, f: Foreign, hops: nat): Tree {
    if boot.Efi? && f.efiStore && StatOf(t, FileOf(dir, Nvram), hops).Missing? then
      Written(t, FileOf(dir, Nvram), f.blankStore, hops)
    else t
  }

  /** When the builder gets through: `t` is the tree after the EFI store was opened. */
  predicate Buildable(t: Tree, dir: Path, boot: Boot, cfg: VmConfig, f: Foreign, hops: nat) {
    && (boot.Efi? ==> f.efiStore && f.efiBoot)
    && StatOf(t, FileOf(dir, MachineId), hops).Found? && f.machineId
    && AllAttachable(t, Storage(t, dir, cfg, hops), f, hops)
    && (forall k | 0 <= k < |cfg.shares| :: ShareOk(cfg.shares[k], f))
    && f.rest
  }

  method AttachShares(shares: seq<Share>, f: Foreign) returns (ok: bool, devices: seq<Share>)
    ensures ok <==> forall k | 0 <= k < |shares| :: shares[k].tag != "" && shares[k].path != "" && f.share(shares[k])
    ensures ok ==> devices == shares
  {
    devices := [];
    for k := 0 to |shares|
      invariant devices == shares[..k]
      invariant forall j | 0 <= j < k :: ShareOk(shares[j], f)
    {
      var s := shares[k];
      if s.tag == "" || s.path == "" || !f.share(s) {
        return false, devices;
      }
      devices := devices + [s];
    }
    return true, devices;
  }

  /** The address the guest's network device is given. */
  function MacOf(t: Tree, dir: Path, f: Foreign, hops: nat): Option<Content> {
    match StatOf(t, FileOf(dir, Mac), hops)
    case Found(text) => if f.mac(text) then Some(text) else None
    case _ => None
  }

  method Attach(host: Host, d: Disk, f: Foreign) returns (ok: bool)
    ensures ok <==> Attachable(host.tree, d, f, host.maxHops)
  {
    ok := host.Look(d.path).Found? && f.disk(d);
  }

  method AttachPrimary(host: Host, dir: Path, f: Foreign) returns (ok: bool, devices: seq<Disk>)
    ensures ok <==> AllAttachable(host.tree, Primary(host.tree, dir, host.maxHops), f, host.maxHops)
    ensures ok ==> devices == Primary(host.tree, dir, host.maxHops)
  {
    if host.Look(dir + ["disk.img"]).Found? {
      devices := [Disk(dir + ["disk.img"], false)];
    } else if host.Look(dir + ["boot.iso"]).Found? {
      devices := [Disk(dir + ["boot.iso"], true)];
    } else {
      return true, [];
    }
    ok := Attach(host, devices[0], f);
  }

  /** The data disks one by one, up to the first that cannot be attached. */
  method AttachDataDisks(host: Host, dir: Path, names: seq<string>, f: Foreign, before: seq<Disk>)
    returns (ok: bool, devices: seq<Disk>)
    ensures ok <==> AllAttachable(host.tree, DataDisks(dir, names), f, host.maxHops)
    ensures ok ==> devices == before + DataDisks(dir, names)
  {
    devices := before;
    for k := 0 to |names|
      invariant devices == before + DataDisks(dir, names)[..k]
      invariant forall j | 0 <= j < k :: Attachable(host.tree, DataDisks(dir, names)[j], f, host.maxHops)
    {
      var d := Disk(dir + [names[k]], false);
      assert d == DataDisks(dir, names)[k];
      ok := Attach(host, d, f);
      if !ok {
        return;
      }
      devices := devices + [d];
    }
    ok := true;
  }

  lemma AttachableApart(t: Tree, a: seq<Disk>, b: seq<Disk>, f: Foreign, hops: nat)
    ensures AllAttachable(t, a + b, f, hops) <==> AllAttachable(t, a, f, hops) && AllAttachable(t, b, f, hops)
  {
    if AllAttachable(t, a + b, f, hops) {
      assert forall k | 0 <= k < |a| :: (a + b)[k] == a[k];
      assert forall k | 0 <= k < |b| :: (a + b)[|a| + k] == b[k];
    }
  }

  /** The primary disk, the data disks and the seed, each attached before the next is looked at. */
  method AttachStorage(host: Host, dir: Path, names: seq<string>, f: Foreign) returns (ok: bool, devices: seq<Disk>)
    ensures var all := Primary(host.tree, dir, host.maxHops) + DataDisks(dir, names)
                       + Seed(host.tree, dir, host.maxHops);
            && (ok <==> AllAttachable(host.tree, all, f, host.maxHops))
            && (ok ==> devices == all)
  {
    ghost var primary := Primary(host.tree, dir, host.maxHops);
    AttachableApart(host.tree, primary, DataDisks(dir, names), f, host.maxHops);
    AttachableApart(host.tree, primary + DataDisks(dir, names), Seed(host.tree, dir, host.maxHops), f, host.maxHops);
    ok, devices := AttachPrimary(host, dir, f);
    if !ok {
      return;
    }
    ok, devices := AttachDataDisks(host, dir, names, f, devices);
    if !ok {
      return;
    }
    if host.Look(dir + ["cloud-init.iso"]).Found? {
      var seed := Disk(dir + ["cloud-init.iso"], true);
      ok := Attach(host, seed, f);
      devices := devices + [seed];
      assert Seed(host.tree, dir, host.maxHops)[0] == seed;
    } else {
      assert devices + [] == devices;
    }
  }

  lemma PrimaryIs(t: Tree, dir: Path, hops: nat)
    ensures var disk, iso := StatOf(t, dir + ["disk.img"], hops).Found?, StatOf(t, dir + ["boot.iso"], hops).Found?;
            Primary(t, dir, hops) == if disk then [Disk(dir + ["disk.img"], false)]
                                     else if iso then [Disk(dir + ["boot.iso"], true)] else []
  {
  }

  lemma PartsOf(a: seq<Disk>, b: seq<Disk>, c: seq<Disk>)
    ensures var all := a + b + c;
            && |all| == |a| + |b| + |c|
            && (a != [] ==> all[0] == a[0])
            && (forall k | 0 <= k < |b| :: all[|a| + k] == b[k])
            && (c != [] ==> all[|a| + |b|] == c[0])
  {
  }

  /** How many disks come before the data disks: disk.img or else boot.iso, if there is one. */
  function Leading(t: Tree, dir: Path, hops: nat): nat {
    if StatOf(t, dir + ["disk.img"], hops).Found? || StatOf(t, dir + ["boot.iso"], hops).Found? then 1 else 0
  }

  /** The storage of any directory begins with disk.img, writable, when that is there, and with boot.iso,
      read-only, when that is there and disk.img is not; with neither it begins with the data disks. */
  lemma StorageBegins(t: Tree, dir: Path, cfg: VmConfig, hops: nat)
    ensures var all, disk := Storage(t, dir, cfg, hops), StatOf(t, dir + ["disk.img"], hops).Found?;
            && Leading(t, dir, hops) <= |all|
            && (disk ==> all[0] == Disk(dir + ["disk.img"], false))
            && (!disk && StatOf(t, dir + ["boot.iso"], hops).Found? ==> all[0] == Disk(dir + ["boot.iso"], true))
  {
    PrimaryIs(t, dir, hops);
    PartsOf(Primary(t, dir, hops), DataDisks(dir, cfg.dataDisks), Seed(t, dir, hops));
  }

  lemma DataDiskAt(dir: Path, names: seq<string>, k: nat)
    requires k < |names|
    ensures |DataDisks(dir, names)| == |names| && DataDisks(dir, names)[k] == Disk(dir + [names[k]], false)
  {
  }

  lemma StorageLength(t: Tree, dir: Path, cfg: VmConfig, hops: nat)
    ensures var seed := StatOf(t, dir + ["cloud-init.iso"], hops).Found?;
            |Storage(t, dir, cfg, hops)| == Leading(t, dir, hops) + |cfg.dataDisks| + (if seed then 1 else 0)
  {
    PrimaryIs(t, dir, hops);
    PartsOf(Primary(t, dir, hops), DataDisks(dir, cfg.dataDisks), Seed(t, dir, hops));
  }

  /** After that come the data disks of the configuration, writable and in order, then cloud-init.iso,
      read-only, exactly when it is there; and nothing else. */
  lemma StorageGoesOn(t: Tree, dir: Path, cfg: VmConfig, hops: nat, k: nat)
    requires k <= |cfg.dataDisks|
    ensures var all, at, n := Storage(t, dir, cfg, hops), Leading(t, dir, hops) + k, |cfg.dataDisks|;
            var seed := StatOf(t, dir + ["cloud-init.iso"], hops).Found?;
            && |all| == Leading(t, dir, hops) + n + (if seed then 1 else 0)
            && (k < n ==> all[at] == Disk(dir + [cfg.dataDisks[k]], false))
            && (k == n && seed ==> all[at] == Disk(dir + ["cloud-init.iso"], true))
  {
    StorageLength(t, dir, cfg, hops);
    PrimaryIs(t, dir, hops);
    PartsOf(Primary(t, dir, hops), DataDisks(dir, cfg.dataDisks), Seed(t, dir, hops));
    if k < |cfg.dataDisks| { DataDiskAt(dir, cfg.dataDisks, k); }
  }

  /** Which boot loader a directory gets, in full: the kernel of the directory with the configured or
      the default command line, and its initrd if there is one, exactly when there is a kernel that
      the framework takes; otherwise EFI with the directory's nvram.bin, created if there is none. */
  lemma BootIs(t: Tree, dir: Path, cfg: VmConfig, f: Foreign, hops: nat)
    ensures var boot := BootOf(t, dir, cfg, f, hops);
            var u := StoreOpened(t, dir, boot, f, hops);
            && (boot.Linux? <==> StatOf(t, dir + ["kernel"], hops).Found? && f.linux)
            && (boot.Linux? ==>
                  && u == t && boot.kernel == dir + ["kernel"]
                  && boot.cmdline == (if cfg.cmdline != "" then cfg.cmdline else "console=hvc0 root=/dev/vda2 rw")
                  && (boot.initrd == None <==> !StatOf(t, dir + ["initrd"], hops).Found?)
                  && (boot.initrd.Some? ==> boot.initrd.value == dir + ["initrd"]))
            && (boot.Efi? ==>
                  && boot.store == dir + ["nvram.bin"]
                  && (if f.efiStore && StatOf(t, dir + ["nvram.bin"], hops).Missing?
                      then StatOf(u, dir + ["nvram.bin"], hops) == Found(f.blankStore) else u == t))
  {
    if StatOf(t, FileOf(dir, Nvram), hops).Missing? {
      WrittenIsFound(t, FileOf(dir, Nvram), f.blankStore, hops);
    }
  }

  /** Direct kernel boot if there is a kernel and the framework takes it, otherwise EFI. */
  method ChooseBoot(host: Host, dir: Path, cfg: VmConfig, f: Foreign) returns (boot: Option<Boot>)
    modifies host
    ensures var b := BootOf(old(host.tree), dir, cfg, f, host.maxHops);
            && host.tree == StoreOpened(old(host.tree), dir, b, f, host.maxHops)
            && (boot.Some? <==> b.Linux? || (f.efiStore && f.efiBoot))
            && (boot.Some? ==> boot.value == b)
  {
    var create := host.Look(FileOf(dir, Nvram)).Missing?;
    if host.Look(dir + ["kernel"]).Found? {
      var cmdline := DEFAULT_CMDLINE;
      if cfg.cmdline != "" {
        cmdline := cfg.cmdline;
      }
      var initrd := None;
      if host.Look(dir + ["initrd"]).Found? {
        initrd := Some(dir + ["initrd"]);
      }
      if f.linux {
        return Some(Linux(dir + ["kernel"], cmdline, initrd));
      }
    }
    if !f.efiStore {
      return None;
    }
    if create {
      var _ := host.WriteFile(FileOf(dir, Nvram), f.blankStore, false);
    }
    if !f.efiBoot {
      return None; // the store stays
    }
    return Some(Efi(FileOf(dir, Nvram)));
  }

  method ReadMac(host: Host, dir: Path, f: Foreign) returns (mac: Option<Content>)
    ensures mac == MacOf(host.tree, dir, f, host.maxHops)
  {
    mac := None;
    var text := host.Look(FileOf(dir, Mac));
    if text.Found? && f.mac(text.data) {
      mac := Some(text.data);
    }
  }

  method MachineSize(cfg: VmConfig) returns (cpu: nat, memory: nat)
    ensures cpu == (if cfg.cpu > 0 then cfg.cpu else 2) && memory == Memory(cfg)
    ensures memory == if cfg.memGiB == 0 then 0x8000_0000 else cfg.memGiB * 0x4000_0000 % 0x1_0000_0000_0000_0000
  {
    cpu, memory := 2, 2 * 1024 * 1024 * 1024;
    if cfg.cpu > 0 {
      cpu := cfg.cpu;
    }
    if cfg.memGiB > 0 {
      memory := cfg.memGiB * 1024 * 1024 * 1024 % WORD;
    }
  }

  /** buildVZConfigFromDir. */
  method BuildVZConfigFromDir(host: Host, dir: Path, withGraphics: bool, f: Foreign) returns (r: Result<Plan>)
    modifies host
    ensures var cfg := ConfigIn(old(host.tree), dir, host.maxHops);
            var boot := BootOf(old(host.tree), dir, cfg, f, host.maxHops);
            && host.tree == StoreOpened(old(host.tree), dir, boot, f, host.maxHops)
            && (r.Ok? <==> Buildable(host.tree, dir, boot, cfg, f, host.maxHops))
            && (r.Ok? ==>
                  && r.value.boot == boot
                  && Found(r.value.machineId) == StatOf(host.tree, FileOf(dir, MachineId), host.maxHops)
                  && r.value.storage == Storage(host.tree, dir, cfg, host.maxHops)
                  && r.value.mac == MacOf(host.tree, dir, f, host.maxHops)
                  && r.value.cpu == (if cfg.cpu > 0 then cfg.cpu else 2)
                  && r.value.memory == Memory(cfg)
                  && r.value.shares == cfg.shares
                  && r.value.graphics == withGraphics)
  {
    var cfg := NO_CONFIG;
    var read := host.Look(dir + ["config.json"]);
    if read.Found? && read.data.Config? {
      cfg := read.data.cfg;
    }
    var boot := ChooseBoot(host, dir, cfg, f);
    if boot.None? {
      return Err("efi store");
    }
    var mid := host.Look(FileOf(dir, MachineId));
    if !mid.Found? || !f.machineId {
      return Err("machine identifier");
    }
    var attached, storage := AttachStorage(host, dir, cfg.dataDisks, f);
    if !attached {
      return Err("storage");
    }
    var mac := ReadMac(host, dir, f);
    var cpu, memory := MachineSize(cfg);
    var shared, shares := AttachShares(cfg.shares, f);
    if !shared {
      return Err("share entry");
    }
    if !f.rest {
      return Err("vm config invalid");
    }
    return Ok(Plan(boot.value, mid.data, storage, mac, cpu, memory, shares, withGraphics));
  }

  /** The memory size is exact for every amount below 2^34 GiB and for no larger one. */
  lemma MemoryIsExact(cfg: VmConfig)
    requires cfg.memGiB > 0
    ensures Memory(cfg) == cfg.memGiB * 1073741824 <==> cfg.memGiB < 0x4_0000_0000
  {
  }

  /** The two ISO images are the only read-only disks, and the installer is attached only where there
      is no disk.img; with neither, the first disk is a data disk. */
  lemma ReadOnlyDisks(t: Tree, dir: Path, cfg: VmConfig, hops: nat, k: nat)
    requires k < |Storage(t, dir, cfg, hops)|
    ensures var d, n := Storage(t, dir, cfg, hops)[k], |Primary(t, dir, hops)|;
            && (d.readOnly <==> (k < n && d.path == dir + ["boot.iso"])
                                || (k >= n + |cfg.dataDisks| && d.path == dir + ["cloud-init.iso"]))
            && (d.readOnly && k < n ==> !StatOf(t, dir + ["disk.img"], hops).Found?)
            && (n <= k < n + |cfg.dataDisks| ==> d == Disk(dir + [cfg.dataDisks[k - n]], false))
  {
    if k == 0 && |Primary(t, dir, hops)| > 0 {
      assert (dir + ["disk.img"])[|dir|] == "disk.img" && (dir + ["boot.iso"])[|dir|] == "boot.iso";
    }
  }

  /** The EFI store's path is neither a link nor where a link leads. */
  ghost predicate StoreApart(t: Tree, dir: Path) {
    var p := FileOf(dir, Nvram);
    && (p in t ==> t[p].File?)
    && (forall q | q in t && t[q].Link? :: t[q].target != p)
  }

  lemma {:induction false} ElsewhereUnchanged(t: Tree, q: Path, data: Content, p: Path, hops: nat)
    requires q !in t && p != q && forall r | r in t && t[r].Link? :: t[r].target != q
    ensures StatOf(t[q := File(data)], p, hops) == StatOf(t, p, hops)
    decreases hops
  {
    if p in t && t[p].Link? && hops > 0 {
      ElsewhereUnchanged(t, q, data, t[p].target, hops - 1);
    }
  }

  ghost predicate SameBut(t: Tree, u: Tree, p: Path, hops: nat) {
    forall q | q != p :: StatOf(u, q, hops) == StatOf(t, q, hops)
  }

  lemma OnlyStoreDiffers(t: Tree, dir: Path, boot: Boot, f: Foreign, hops: nat)
    requires StoreApart(t, dir)
    ensures SameBut(t, StoreOpened(t, dir, boot, f, hops), FileOf(dir, Nvram), hops)
    ensures boot.Efi? && f.efiStore
            ==> StatOf(StoreOpened(t, dir, boot, f, hops), FileOf(dir, Nvram), hops).Found?
  {
    var p, u := FileOf(dir, Nvram), StoreOpened(t, dir, boot, f, hops);
    if u != t {
      forall q | q != p
        ensures StatOf(u, q, hops) == StatOf(t, q, hops)
      {
        ElsewhereUnchanged(t, p, f.blankStore, q, hops);
      }
    }
    if boot.Efi? && f.efiStore && StatOf(t, p, hops).Missing? {
      WrittenIsFound(t, p, f.blankStore, hops);
    }
  }

  lemma OtherNames(dir: Path)
    ensures forall name | name != "nvram.bin" :: dir + [name] != FileOf(dir, Nvram)
    ensures "config.json" != "nvram.bin" && "kernel" != "nvram.bin" && "initrd" != "nvram.bin"
            && "disk.img" != "nvram.bin" && "boot.iso" != "nvram.bin" && "cloud-init.iso" != "nvram.bin"
    ensures FileOf(dir, MachineId) != FileOf(dir, Nvram) && FileOf(dir, Mac) != FileOf(dir, Nvram)
  {
    assert FileOf(dir, Nvram)[|dir|] == "nvram.bin";
    assert forall name :: (dir + [name])[|dir|] == name;
    NamesDistinct(dir, Nvram);
    assert |"config.json"| != 9 && |"kernel"| != 9 && |"initrd"| != 9 && |"disk.img"| != 9 && |"boot.iso"| != 9;
  }

  lemma SameReading(t: Tree, u: Tree, dir: Path, hops: nat)
    requires SameBut(t, u, FileOf(dir, Nvram), hops)
    ensures forall name | name != "nvram.bin" :: StatOf(u, dir + [name], hops) == StatOf(t, dir + [name], hops)
    ensures ConfigIn(u, dir, hops) == ConfigIn(t, dir, hops)
    ensures Primary(u, dir, hops) == Primary(t, dir, hops) && Seed(u, dir, hops) == Seed(t, dir, hops)
    ensures StatOf(u, FileOf(dir, MachineId), hops) == StatOf(t, FileOf(dir, MachineId), hops)
    ensures StatOf(u, FileOf(dir, Mac), hops) == StatOf(t, FileOf(dir, Mac), hops)
  {
    OtherNames(dir);
  }

  /** Building leaves behind what a second build reads the same: the same configuration, boot loader
      and disks, and nothing more to create. So the plan of a directory does not depend on whether it
      was built before, nor on a build that failed half-way. */
  lemma BuildIsRepeatable(t: Tree, dir: Path, f: Foreign, g: Foreign, hops: nat)
    requires StoreApart(t, dir) && f.linux == g.linux
    ensures var cfg := ConfigIn(t, dir, hops);
            var boot := BootOf(t, dir, cfg, f, hops);
            var u := StoreOpened(t, dir, boot, f, hops);
            && ConfigIn(u, dir, hops) == cfg && BootOf(u, dir, cfg, g, hops) == boot
            && Storage(u, dir, cfg, hops) == Storage(t, dir, cfg, hops)
            && MacOf(u, dir, f, hops) == MacOf(t, dir, f, hops)
            && StatOf(u, FileOf(dir, MachineId), hops) == StatOf(t, FileOf(dir, MachineId), hops)
            && (f.efiStore ==> StoreOpened(u, dir, boot, g, hops) == u)
  {
    var cfg := ConfigIn(t, dir, hops);
    var boot := BootOf(t, dir, cfg, f, hops);
    OnlyStoreDiffers(t, dir, boot, f, hops);
    SameReading(t, StoreOpened(t, dir, boot, f, hops), dir, hops);
    OtherNames(dir);
  }

  /** A microVM directory, with a kernel and shares but no disk of any kind, gets a plan without
      storage, boots with the command line it asks for, and is built without writing anything. */
  lemma MicroVmNeedsNoDisk(t: Tree, dir: Path, f: Foreign, hops: nat)
    requires StatOf(t, dir + ["kernel"], hops).Found? && f.linux
    requires !StatOf(t, dir + ["disk.img"], hops).Found? && !StatOf(t, dir + ["boot.iso"], hops).Found?
    requires !StatOf(t, dir + ["cloud-init.iso"], hops).Found? && ConfigIn(t, dir, hops).dataDisks == []
    ensures var cfg := ConfigIn(t, dir, hops);
            var boot := BootOf(t, dir, cfg, f, hops);
            && StoreOpened(t, dir, boot, f, hops) == t
            && Storage(t, dir, cfg, hops) == []
            && boot.Linux? && (cfg.cmdline != "" ==> boot.cmdline == cfg.cmdline)
            && (Buildable(t, dir, boot, cfg, f, hops)
                <==> StatOf(t, FileOf(dir, MachineId), hops).Found? && f.machineId && f.rest
                     && forall k | 0 <= k < |cfg.shares| :: ShareOk(cfg.shares[k], f))
  {
  }
}
