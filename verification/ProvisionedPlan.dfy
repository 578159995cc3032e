/** What provision lays out is what the builder reads back. */
module ProvisionedPlan {
  import opened Basics
  import opened FileSystem
  import opened Identity
  import opened DevicePlan
  import opened Provision
  import Decimal

  /** `u` is `t` with a directory `dir` that holds exactly the nodes `want`, by name. */
  ghost predicate Laid(t: Tree, u: Tree, dir: Path, want: map<string, Node>) {
    && SameOutside(t, u, dir)
    && forall name :: (dir + [name] in u <==> name in want) && (name in want ==> u[dir + [name]] == want[name])
  }

  /** Names in a directory are told apart by their last component, and lie in it. */
  lemma NameIsOwn(dir: Path, name: string, other: string)
    ensures dir <= dir + [name]
    ensures dir + [name] == dir + [other] ==> name == other
  {
    assert (dir + [name])[|dir|] == name && (dir + [other])[|dir|] == other;
  }

  lemma LaidPut(t: Tree, u: Tree, dir: Path, want: map<string, Node>, name: string, n: Node)
    requires Laid(t, u, dir, want)
    ensures Laid(t, u[dir + [name] := n], dir, want[name := n])
  {
    forall other
      ensures dir + [other] == dir + [name] <==> other == name
    {
      NameIsOwn(dir, name, other);
    }
  }

  lemma LaidRemove(t: Tree, u: Tree, dir: Path, want: map<string, Node>, name: string)
    requires Laid(t, u, dir, want)
    ensures Laid(t, u - {dir + [name]}, dir, want - {name})
  {
    forall other
      ensures dir + [other] == dir + [name] <==> other == name
    {
      NameIsOwn(dir, name, other);
    }
  }

  lemma PutAfterRemove(u: Tree, p: Path, n: Node)
    ensures (u - {p})[p := n] == u[p := n]
  {
  }

  /** A source that provision accepts, and that it does not overwrite while placing others: it is
      found, and neither it nor a link it leads through lies in the VM directory. */
  predicate GoodSource(t: Tree, src: Path, dir: Path, hops: nat) {
    Outside(t, src, dir, hops) && StatOf(t, src, hops).Found?
  }

  /** The node that stands for a source. */
  function NodeFor(t: Tree, src: Path, copyMode: bool, hops: nat): Node
    requires StatOf(t, src, hops).Found?
  {
    if copyMode then File(StatOf(t, src, hops).data) else Link(src)
  }

  lemma {:induction false} OutsideFewerHops(t: Tree, p: Path, dir: Path, hops: nat)
    requires hops > 0 && Outside(t, p, dir, hops)
    ensures Outside(t, p, dir, hops - 1)
    decreases hops
  {
    if p in t && t[p].Link? && hops > 1 {
      OutsideFewerHops(t, t[p].target, dir, hops - 1);
    }
  }

  lemma PlaceLaid(t: Tree, u: Tree, dir: Path, want: map<string, Node>, src: Path, name: string, copyMode: bool,
                  hops: nat)
    requires Laid(t, u, dir, want) && GoodSource(t, src, dir, hops)
    ensures StatOf(t, src, hops).Found?
    ensures var r := Placed(u, src, dir + [name], copyMode, hops);
            r.Some? && Laid(t, r.value, dir, want[name := NodeFor(t, src, copyMode, hops)])
  {
    var p := dir + [name];
    OutsideUnaffected(t, u, src, dir, hops);
    LaidRemove(t, u, dir, want, name);
    OutsideUnaffected(t, u - {p}, src, dir, hops);
    var n := NodeFor(t, src, copyMode, hops);
    LaidPut(t, u, dir, want, name, n);
    PutAfterRemove(u, p, n);
  }

  predicate GoodSources(t: Tree, srcs: seq<Path>, dir: Path, hops: nat) {
    forall k | 0 <= k < |srcs| :: GoodSource(t, srcs[k], dir, hops)
  }

  function DiskNodes(t: Tree, srcs: seq<Path>, dir: Path, copyMode: bool, hops: nat): map<string, Node>
    requires GoodSources(t, srcs, dir, hops)
  {
    if srcs == [] then map[]
    else
      var n := |srcs| - 1;
      DiskNodes(t, srcs[..n], dir, copyMode, hops)[DataName(n) := NodeFor(t, srcs[n], copyMode, hops)]
  }

  lemma DataNamesDiffer(i: nat, j: nat)
    ensures DataName(i) == DataName(j) ==> i == j
  {
    if DataName(i) == DataName(j) {
      assert DataName(i)[5..|DataName(i)| - 4] == Decimal.Digits(i);
      assert DataName(j)[5..|DataName(j)| - 4] == Decimal.Digits(j);
      Decimal.DigitsInjective(i, j);
    }
  }

  /** Generated names are injective, so no disk replaces another. */
  lemma {:induction false} DiskNodesAre(t: Tree, srcs: seq<Path>, dir: Path, copyMode: bool, hops: nat)
    requires GoodSources(t, srcs, dir, hops)
    ensures forall k | 0 <= k < |srcs| ::
              DataName(k) in DiskNodes(t, srcs, dir, copyMode, hops)
              && DiskNodes(t, srcs, dir, copyMode, hops)[DataName(k)] == NodeFor(t, srcs[k], copyMode, hops)
    ensures forall name | name in DiskNodes(t, srcs, dir, copyMode, hops) :: "data-" <= name
  {
    if srcs != [] {
      var n := |srcs| - 1;
      DiskNodesAre(t, srcs[..n], dir, copyMode, hops);
      forall k | 0 <= k < n
        ensures DataName(k) != DataName(n)
      {
        DataNamesDiffer(k, n);
      }
    }
  }

  lemma PutInSum<K, V>(m: map<K, V>, n: map<K, V>, k: K, v: V)
    ensures (m + n)[k := v] == m + n[k := v]
  {
  }

  lemma {:induction false} DisksLaid(t: Tree, u: Tree, dir: Path, want: map<string, Node>, srcs: seq<Path>,
                                     copyMode: bool, hops: nat)
    requires Laid(t, u, dir, want) && GoodSources(t, srcs, dir, hops)
    ensures var r := DisksPlaced(u, dir, srcs, copyMode, hops);
            r.Some? && Laid(t, r.value, dir, want + DiskNodes(t, srcs, dir, copyMode, hops))
  {
    if srcs == [] {
      assert want + map[] == want;
    } else {
      var n := |srcs| - 1;
      DisksLaid(t, u, dir, want, srcs[..n], copyMode, hops);
      var before := want + DiskNodes(t, srcs[..n], dir, copyMode, hops);
      var placed := DisksPlaced(u, dir, srcs[..n], copyMode, hops).value;
      PlaceLaid(t, placed, dir, before, srcs[n], DataName(n), copyMode, hops);
      PutInSum(want, DiskNodes(t, srcs[..n], dir, copyMode, hops), DataName(n), NodeFor(t, srcs[n], copyMode, hops));
    }
  }

  /** A placed source can be opened: always when it was copied, and when it was linked to exactly
      when it is found with one link fewer, since the new link is followed first. */
  predicate Opens(t: Tree, src: Path, copyMode: bool, hops: nat) {
    copyMode || (hops > 0 && StatOf(t, src, hops - 1).Found?)
  }

  function OpenedAs(t: Tree, src: Path, copyMode: bool, hops: nat): Stat {
    if Opens(t, src, copyMode, hops) then StatOf(t, src, hops) else Failed
  }

  /** With one link fewer to follow a file is found again or there are too many links. */
  lemma {:induction false} FewerHops(t: Tree, p: Path, hops: nat)
    requires hops > 0 && StatOf(t, p, hops).Found?
    ensures StatOf(t, p, hops - 1) == StatOf(t, p, hops) || StatOf(t, p, hops - 1).Failed?
    decreases hops
  {
    if p in t && t[p].Link? && hops > 1 {
      FewerHops(t, t[p].target, hops - 1);
    }
  }

  /** What a placed artefact is opened as: the bytes of its source, if it can be opened. */
  lemma OpensAsSource(t: Tree, u: Tree, dir: Path, want: map<string, Node>, name: string, src: Path, copyMode: bool,
                      hops: nat)
    requires Laid(t, u, dir, want) && GoodSource(t, src, dir, hops)
    requires name in want && want[name] == NodeFor(t, src, copyMode, hops)
    ensures StatOf(u, dir + [name], hops) == OpenedAs(t, src, copyMode, hops)
  {
    if !copyMode && hops > 0 {
      OutsideFewerHops(t, src, dir, hops);
      OutsideUnaffected(t, u, src, dir, hops - 1);
      FewerHops(t, src, hops);
    }
  }

  // -- The whole layout ----------------------------------------------------------------------

  predicate GoodArgs(t: Tree, a: Args, hops: nat) {
    && (forall p | p in t :: !(a.vmDir <= p))
    && GoodSource(t, a.image, a.vmDir, hops)
    && GoodSources(t, a.dataDisks, a.vmDir, hops)
    && (a.cidata.Some? ==> GoodSource(t, a.cidata.value, a.vmDir, hops))
  }

  function Artefacts(t: Tree, a: Args, hops: nat): map<string, Node>
    requires GoodArgs(t, a, hops)
  {
    var disks := map["disk.img" := NodeFor(t, a.image, a.copyMode, hops)]
                 + DiskNodes(t, a.dataDisks, a.vmDir, a.copyMode, hops);
    match a.cidata
    case None => disks
    case Some(iso) => disks["cloud-init.iso" := NodeFor(t, iso, a.copyMode, hops)]
  }

  lemma ArtefactsLaid(t: Tree, a: Args, hops: nat)
    requires GoodArgs(t, a, hops)
    ensures var r := ArtefactsPlaced(t, a, hops); r.Some? && Laid(t, r.value, a.vmDir, Artefacts(t, a, hops))
  {
    var dir := a.vmDir;
    forall name
      ensures dir + [name] !in t
    {
      NameIsOwn(dir, name, name);
    }
    assert Laid(t, t, dir, map[]);
    PlaceLaid(t, t, dir, map[], a.image, "disk.img", a.copyMode, hops);
    var t1 := Placed(t, a.image, dir + ["disk.img"], a.copyMode, hops).value;
    var first := map["disk.img" := NodeFor(t, a.image, a.copyMode, hops)];
    DisksLaid(t, t1, dir, first, a.dataDisks, a.copyMode, hops);
    if a.cidata.Some? {
      var t2 := DisksPlaced(t1, dir, a.dataDisks, a.copyMode, hops).value;
      PlaceLaid(t, t2, dir, first + DiskNodes(t, a.dataDisks, dir, a.copyMode, hops), a.cidata.value, "cloud-init.iso",
                a.copyMode, hops);
    }
  }

  /** The names in the layout are the ones provision generates. */
  lemma ArtefactNames(t: Tree, a: Args, hops: nat)
    requires GoodArgs(t, a, hops)
    ensures var m := Artefacts(t, a, hops);
            && (forall name | name in m :: name == "disk.img" || name == "cloud-init.iso" || "data-" <= name)
            && "disk.img" in m && m["disk.img"] == NodeFor(t, a.image, a.copyMode, hops)
            && (forall k | 0 <= k < |a.dataDisks| ::
                  DataName(k) in m && m[DataName(k)] == NodeFor(t, a.dataDisks[k], a.copyMode, hops))
            && ("cloud-init.iso" in m <==> a.cidata.Some?)
            && (a.cidata.Some? ==> m["cloud-init.iso"] == NodeFor(t, a.cidata.value, a.copyMode, hops))
  {
    DiskNodesAre(t, a.dataDisks, a.vmDir, a.copyMode, hops);
    var disks := DiskNodes(t, a.dataDisks, a.vmDir, a.copyMode, hops);
    forall k | 0 <= k < |a.dataDisks|
      ensures DataName(k)[0..1] == "d" && DataName(k)[1] == 'a'
    {
    }
    assert "disk.img"[1] != 'a' && "cloud-init.iso"[0] != 'd';
    assert !("data-" <= "disk.img") && !("data-" <= "cloud-init.iso");
  }

  lemma EnsuredLaid(t: Tree, u: Tree, dir: Path, want: map<string, Node>, part: Part, supply: Supply, hops: nat)
    requires Laid(t, u, dir, want) && NameOf(part) !in want
    ensures var v := u[FileOf(dir, part) := File(supply(part))];
            Ensured(u, dir, part, supply, {}, hops) == (v, true)
            && Laid(t, v, dir, want[NameOf(part) := File(supply(part))])
  {
    LaidPut(t, u, dir, want, NameOf(part), File(supply(part)));
  }

  /** The names CreateVM and the configuration use are not names of artefacts. */
  lemma OwnNamesAreNew(t: Tree, a: Args, hops: nat)
    requires GoodArgs(t, a, hops)
    ensures forall part :: NameOf(part) !in Artefacts(t, a, hops)
    ensures "config.json" !in Artefacts(t, a, hops) && "kernel" !in Artefacts(t, a, hops)
    ensures "boot.iso" !in Artefacts(t, a, hops)
  {
    ArtefactNames(t, a, hops);
    assert "nvram.bin"[0] != 'd' && "machine-id.bin"[0] != 'd' && "mac.txt"[0] != 'd';
    assert "config.json"[0] != 'd' && "kernel"[0] != 'd' && "boot.iso"[0] == 'b';
    assert "nvram.bin"[0] != 'c' && "machine-id.bin"[0] != 'c' && "mac.txt"[0] != 'c';
    assert "config.json"[1] != 'l' && "kernel"[0] != 'c';
  }

  function WithIdentity(want: map<string, Node>, supply: Supply): map<string, Node> {
    var stored := want["nvram.bin" := File(supply(Nvram))]["machine-id.bin" := File(supply(MachineId))];
    stored["mac.txt" := File(supply(Mac))]
  }

  lemma WipedLaid(t: Tree, u: Tree, dir: Path, want: map<string, Node>)
    requires Laid(t, u, dir, want) && forall part :: NameOf(part) !in want
    ensures Laid(t, IdentityWiped(u, dir), dir, want)
  {
    assert NameOf(Nvram) !in want && NameOf(MachineId) !in want && NameOf(Mac) !in want;
    LaidRemove(t, u, dir, want, NameOf(Nvram));
    assert want - {NameOf(Nvram)} == want;
    LaidRemove(t, u - {FileOf(dir, Nvram)}, dir, want, NameOf(MachineId));
    assert want - {NameOf(MachineId)} == want;
    LaidRemove(t, u - {FileOf(dir, Nvram)} - {FileOf(dir, MachineId)}, dir, want, NameOf(Mac));
    assert want - {NameOf(Mac)} == want;
  }

  lemma CreatedLaid(t: Tree, u: Tree, dir: Path, want: map<string, Node>, supply: Supply, hops: nat)
    requires Laid(t, u, dir, want) && forall part :: NameOf(part) !in want
    ensures var (v, ok) := Created(u, dir, supply, {}, hops); ok && Laid(t, v, dir, WithIdentity(want, supply))
  {
    assert NameOf(Nvram) !in want && NameOf(MachineId) !in want && NameOf(Mac) !in want;
    assert |NameOf(Nvram)| == 9 && |NameOf(MachineId)| == 14 && |NameOf(Mac)| == 7;
    EnsuredLaid(t, u, dir, want, Nvram, supply, hops);
    var u1 := Ensured(u, dir, Nvram, supply, {}, hops).0;
    var want1 := want[NameOf(Nvram) := File(supply(Nvram))];
    EnsuredLaid(t, u1, dir, want1, MachineId, supply, hops);
    var u2 := Ensured(u1, dir, MachineId, supply, {}, hops).0;
    EnsuredLaid(t, u2, dir, want1[NameOf(MachineId) := File(supply(MachineId))], Mac, supply, hops);
  }

  /** Everything provision leaves in a fresh directory. */
  function Layout(t: Tree, a: Args, supply: Supply, hops: nat): map<string, Node>
    requires GoodArgs(t, a, hops)
  {
    WithIdentity(Artefacts(t, a, hops), supply)["config.json" := File(Config(ConfigFor(a)))]
  }

  lemma ConfigLaid(t: Tree, u: Tree, dir: Path, want: map<string, Node>, data: Content, hops: nat)
    requires Laid(t, u, dir, want) && "config.json" !in want
    ensures var p := dir + ["config.json"];
            Final(u, p, hops) == Some(p) && Laid(t, Written(u, p, data, hops), dir, want["config.json" := File(data)])
  {
    LaidPut(t, u, dir, want, "config.json", File(data));
  }

  lemma ConfigIsNew(want: map<string, Node>, supply: Supply)
    requires "config.json" !in want
    ensures "config.json" !in WithIdentity(want, supply)
  {
    assert |"nvram.bin"| == 9 && |"machine-id.bin"| == 14 && |"mac.txt"| == 7 && |"config.json"| == 11;
  }

  lemma ProvisionedLaid(t: Tree, a: Args, supply: Supply, hops: nat)
    requires GoodArgs(t, a, hops)
    ensures var r := Provisioned(t, a, supply, {}, hops);
            r.Some? && Laid(t, r.value, a.vmDir, Layout(t, a, supply, hops))
  {
    var dir, want := a.vmDir, Artefacts(t, a, hops);
    ArtefactsLaid(t, a, hops);
    OwnNamesAreNew(t, a, hops);
    var u1 := ArtefactsPlaced(t, a, hops).value;
    WipedLaid(t, u1, dir, want);
    CreatedLaid(t, IdentityWiped(u1, dir), dir, want, supply, hops);
    ConfigIsNew(want, supply);
    ConfigLaid(t, Created(IdentityWiped(u1, dir), dir, supply, {}, hops).0, dir, WithIdentity(want, supply),
               Config(ConfigFor(a)), hops);
  }

  lemma PartsInLayout(want: map<string, Node>, supply: Supply, cfg: Node)
    ensures var m := WithIdentity(want, supply)["config.json" := cfg];
            forall part :: NameOf(part) in m && m[NameOf(part)] == File(supply(part))
  {
    assert |"nvram.bin"| == 9 && |"machine-id.bin"| == 14 && |"mac.txt"| == 7 && |"config.json"| == 11;
    var m := WithIdentity(want, supply)["config.json" := cfg];
    forall part
      ensures NameOf(part) in m && m[NameOf(part)] == File(supply(part))
    {
      match part
      case Nvram =>
      case MachineId =>
      case Mac =>
    }
  }

  lemma OthersInLayout(want: map<string, Node>, supply: Supply, cfg: Node, name: string)
    requires name != "config.json" && name != "nvram.bin" && name != "machine-id.bin" && name != "mac.txt"
    ensures var m := WithIdentity(want, supply)["config.json" := cfg];
            (name in m <==> name in want) && (name in want ==> m[name] == want[name])
  {
  }

  lemma LayoutIs(t: Tree, a: Args, supply: Supply, hops: nat)
    requires GoodArgs(t, a, hops)
    ensures var m, art := Layout(t, a, supply, hops), Artefacts(t, a, hops);
            && (forall name | name in art :: name in m && m[name] == art[name])
            && (forall part :: NameOf(part) in m && m[NameOf(part)] == File(supply(part)))
            && "config.json" in m && m["config.json"] == File(Config(ConfigFor(a)))
            && "kernel" !in m && "boot.iso" !in m && ("cloud-init.iso" in m <==> a.cidata.Some?)
  {
    OwnNamesAreNew(t, a, hops);
    ArtefactNames(t, a, hops);
    var art, cfg := Artefacts(t, a, hops), File(Config(ConfigFor(a)));
    assert NameOf(Nvram) !in art && NameOf(MachineId) !in art && NameOf(Mac) !in art;
    PartsInLayout(art, supply, cfg);
    assert |"nvram.bin"| == 9 && |"machine-id.bin"| == 14 && |"mac.txt"| == 7 && |"config.json"| == 11;
    assert |"kernel"| == 6 && |"boot.iso"| == 8 && |"cloud-init.iso"| == 14;
    assert "cloud-init.iso"[0] != "machine-id.bin"[0];
    OthersInLayout(art, supply, cfg, "kernel");
    OthersInLayout(art, supply, cfg, "boot.iso");
    OthersInLayout(art, supply, cfg, "cloud-init.iso");
    forall name | name in art
      ensures name in Layout(t, a, supply, hops) && Layout(t, a, supply, hops)[name] == art[name]
    {
      OthersInLayout(art, supply, cfg, name);
    }
  }

  /** Where every artefact of a provisioned directory is opened, its source's contents are found, in
      copy mode and in symlink mode, unless the new link is one too many; no placement has replaced
      another. */
  lemma ArtefactsOpenAsSources(t: Tree, a: Args, supply: Supply, hops: nat)
    requires GoodArgs(t, a, hops)
    ensures Provisioned(t, a, supply, {}, hops).Some?
    ensures var u := Provisioned(t, a, supply, {}, hops).value;
            && StatOf(u, a.vmDir + ["disk.img"], hops) == OpenedAs(t, a.image, a.copyMode, hops)
            && (forall k | 0 <= k < |a.dataDisks| ::
                  StatOf(u, a.vmDir + [DataName(k)], hops) == OpenedAs(t, a.dataDisks[k], a.copyMode, hops))
            && (a.cidata.Some? ==>
                  StatOf(u, a.vmDir + ["cloud-init.iso"], hops) == OpenedAs(t, a.cidata.value, a.copyMode, hops))
            && SameOutside(t, u, a.vmDir)
  {
    ProvisionedLaid(t, a, supply, hops);
    LayoutIs(t, a, supply, hops);
    ArtefactNames(t, a, hops);
    var u, m := Provisioned(t, a, supply, {}, hops).value, Layout(t, a, supply, hops);
    OpensAsSource(t, u, a.vmDir, m, "disk.img", a.image, a.copyMode, hops);
    forall k | 0 <= k < |a.dataDisks|
      ensures StatOf(u, a.vmDir + [DataName(k)], hops) == OpenedAs(t, a.dataDisks[k], a.copyMode, hops)
    {
      OpensAsSource(t, u, a.vmDir, m, DataName(k), a.dataDisks[k], a.copyMode, hops);
    }
    if a.cidata.Some? {
      OpensAsSource(t, u, a.vmDir, m, "cloud-init.iso", a.cidata.value, a.copyMode, hops);
    }
  }

  lemma FoundByName(t: Tree, u: Tree, dir: Path, want: map<string, Node>, name: string, data: Content, hops: nat)
    requires Laid(t, u, dir, want) && name in want && want[name] == File(data)
    ensures StatOf(u, dir + [name], hops) == Found(data)
  {
  }

  lemma MissingByName(t: Tree, u: Tree, dir: Path, want: map<string, Node>, name: string, hops: nat)
    requires Laid(t, u, dir, want) && name !in want
    ensures StatOf(u, dir + [name], hops).Missing?
  {
  }

  /** The fixed names of a provisioned directory, as the builder finds them. */
  lemma OwnFilesFound(t: Tree, a: Args, supply: Supply, hops: nat)
    requires GoodArgs(t, a, hops) && Provisioned(t, a, supply, {}, hops).Some?
    ensures var u, dir := Provisioned(t, a, supply, {}, hops).value, a.vmDir;
            && ConfigIn(u, dir, hops) == ConfigFor(a)
            && StatOf(u, dir + ["kernel"], hops).Missing? && StatOf(u, dir + ["boot.iso"], hops).Missing?
            && (forall part :: StatOf(u, FileOf(dir, part), hops) == Found(supply(part)))
            && (a.cidata.None? ==> StatOf(u, dir + ["cloud-init.iso"], hops).Missing?)
  {
    var u, dir, m := Provisioned(t, a, supply, {}, hops).value, a.vmDir, Layout(t, a, supply, hops);
    ProvisionedLaid(t, a, supply, hops);
    LayoutIs(t, a, supply, hops);
    FoundByName(t, u, dir, m, "config.json", Config(ConfigFor(a)), hops);
    MissingByName(t, u, dir, m, "kernel", hops);
    MissingByName(t, u, dir, m, "boot.iso", hops);
    if a.cidata.None? {
      MissingByName(t, u, dir, m, "cloud-init.iso", hops);
    }
    forall part
      ensures StatOf(u, FileOf(dir, part), hops) == Found(supply(part))
    {
      FoundByName(t, u, dir, m, NameOf(part), supply(part), hops);
    }
  }

  // -- The plan ------------------------------------------------------------------------------

  /** The disks of the plan: the image, the data disks in flag order, and the seed if one was given.
      The builder passes over an image or a seed that it cannot open. */
  function PlannedStorage(a: Args, image: bool, seed: bool): seq<Disk> {
    (if image then [Disk(a.vmDir + ["disk.img"], false)] else [])
    + seq(|a.dataDisks|, k requires 0 <= k < |a.dataDisks| => Disk(a.vmDir + [DataName(k)], false))
    + if seed then [Disk(a.vmDir + ["cloud-init.iso"], true)] else []
  }

  /** The disks a provisioned VM must get. */
  function ExpectedStorage(a: Args): seq<Disk> { PlannedStorage(a, true, a.cidata.Some?) }

  lemma StorageIs(a: Args, u: Tree, hops: nat)
    requires !StatOf(u, a.vmDir + ["boot.iso"], hops).Found?
    ensures Storage(u, a.vmDir, ConfigFor(a), hops)
            == PlannedStorage(a, StatOf(u, a.vmDir + ["disk.img"], hops).Found?,
                              StatOf(u, a.vmDir + ["cloud-init.iso"], hops).Found?)
  {
    assert DataDisks(a.vmDir, DataNames(|a.dataDisks|))
        == seq(|a.dataDisks|, k requires 0 <= k < |a.dataDisks| => Disk(a.vmDir + [DataName(k)], false));
  }

  /** Nothing is passed over exactly when as many disks are planned as were asked for. */
  lemma NothingPassedOver(a: Args, image: bool, seed: bool)
    requires seed ==> a.cidata.Some?
    ensures PlannedStorage(a, image, seed) == ExpectedStorage(a) <==> image && (a.cidata.Some? ==> seed)
  {
    var n := |a.dataDisks|;
    assert |PlannedStorage(a, image, seed)| == n + (if image then 1 else 0) + (if seed then 1 else 0);
    assert |ExpectedStorage(a)| == n + 1 + (if a.cidata.Some? then 1 else 0);
  }

  predicate DataDisksOpen(t: Tree, a: Args, hops: nat) {
    forall k | 0 <= k < |a.dataDisks| :: Opens(t, a.dataDisks[k], a.copyMode, hops)
  }

  predicate AllOpen(t: Tree, a: Args, hops: nat) {
    && Opens(t, a.image, a.copyMode, hops)
    && DataDisksOpen(t, a, hops)
    && (a.cidata.Some? ==> Opens(t, a.cidata.value, a.copyMode, hops))
  }

  /** A disk of the plan is one of the placed artefacts. */
  lemma PlannedPaths(a: Args, image: bool, seed: bool, k: nat)
    requires k < |PlannedStorage(a, image, seed)|
    ensures var p, i, n := PlannedStorage(a, image, seed)[k].path, if image then k - 1 else k, |a.dataDisks|;
            p == a.vmDir + [if i < 0 then "disk.img" else if i < n then DataName(i) else "cloud-init.iso"]
            && (i < 0 ==> image) && (i >= n ==> seed)
  {
  }

  ghost predicate AllFound(u: Tree, disks: seq<Disk>, hops: nat) {
    forall k | 0 <= k < |disks| :: StatOf(u, disks[k].path, hops).Found?
  }

  /** The planned disks all have their files exactly when the data disks do. */
  lemma PlannedDisksFound(a: Args, u: Tree, hops: nat)
    ensures var image := StatOf(u, a.vmDir + ["disk.img"], hops).Found?;
            var seed := StatOf(u, a.vmDir + ["cloud-init.iso"], hops).Found?;
            AllFound(u, PlannedStorage(a, image, seed), hops)
            <==> forall k | 0 <= k < |a.dataDisks| :: StatOf(u, a.vmDir + [DataName(k)], hops).Found?
  {
    var image := StatOf(u, a.vmDir + ["disk.img"], hops).Found?;
    var seed := StatOf(u, a.vmDir + ["cloud-init.iso"], hops).Found?;
    var disks, first := PlannedStorage(a, image, seed), if image then 1 else 0;
    if AllFound(u, disks, hops) {
      forall k | 0 <= k < |a.dataDisks|
        ensures StatOf(u, a.vmDir + [DataName(k)], hops).Found?
      {
        PlannedPaths(a, image, seed, first + k);
      }
    } else {
      var k: nat :| k < |disks| && !StatOf(u, disks[k].path, hops).Found?;
      PlannedPaths(a, image, seed, k);
    }
  }

  predicate FrameworkWilling(f: Foreign, disks: seq<Disk>) {
    f.efiStore && f.efiBoot && f.machineId && f.rest && forall k | 0 <= k < |disks| :: f.disk(disks[k])
  }

  lemma BuildableWhen(u: Tree, dir: Path, cfg: VmConfig, boot: Boot, f: Foreign, hops: nat)
    requires cfg.shares == [] && boot.Efi? && StatOf(u, FileOf(dir, MachineId), hops).Found?
    ensures var disks := Storage(u, dir, cfg, hops);
            Buildable(u, dir, boot, cfg, f, hops) <==> AllFound(u, disks, hops) && FrameworkWilling(f, disks)
  {
    var disks := Storage(u, dir, cfg, hops);
    if AllAttachable(u, disks, f, hops) {
      forall k | 0 <= k < |disks|
        ensures f.disk(disks[k]) && StatOf(u, disks[k].path, hops).Found?
      {
        assert Attachable(u, disks[k], f, hops);
      }
    }
  }

  /** The disks that building from a freshly provisioned directory attaches, and when it can. */
  lemma ProvisionedStorage(t: Tree, a: Args, supply: Supply, f: Foreign, hops: nat)
    requires GoodArgs(t, a, hops)
    ensures Provisioned(t, a, supply, {}, hops).Some?
    ensures var u, dir := Provisioned(t, a, supply, {}, hops).value, a.vmDir;
            var disks := Storage(u, dir, ConfigFor(a), hops);
            && (disks == ExpectedStorage(a)
                <==> Opens(t, a.image, a.copyMode, hops)
                     && (a.cidata.Some? ==> Opens(t, a.cidata.value, a.copyMode, hops)))
            && (Buildable(u, dir, Efi(FileOf(dir, Nvram)), ConfigFor(a), f, hops)
                <==> DataDisksOpen(t, a, hops) && FrameworkWilling(f, disks))
  {
    ArtefactsOpenAsSources(t, a, supply, hops);
    OwnFilesFound(t, a, supply, hops);
    var u, dir := Provisioned(t, a, supply, {}, hops).value, a.vmDir;
    StorageIs(a, u, hops);
    NothingPassedOver(a, StatOf(u, dir + ["disk.img"], hops).Found?, StatOf(u, dir + ["cloud-init.iso"], hops).Found?);
    PlannedDisksFound(a, u, hops);
    BuildableWhen(u, dir, ConfigFor(a), Efi(FileOf(dir, Nvram)), f, hops);
  }

  /** What the builder makes of the other files of a freshly provisioned directory. */
  lemma ProvisionedReading(t: Tree, a: Args, supply: Supply, f: Foreign, hops: nat)
    requires GoodArgs(t, a, hops) && Provisioned(t, a, supply, {}, hops).Some?
    ensures var u, dir, boot := Provisioned(t, a, supply, {}, hops).value, a.vmDir, Efi(FileOf(a.vmDir, Nvram));
            && ConfigIn(u, dir, hops) == ConfigFor(a) && !MicroVmFlag(u, dir, hops)
            && BootOf(u, dir, ConfigFor(a), f, hops) == boot && StoreOpened(u, dir, boot, f, hops) == u
            && MacOf(u, dir, f, hops) == if f.mac(supply(Mac)) then Some(supply(Mac)) else None
  {
    OwnFilesFound(t, a, supply, hops);
  }

  /** Building from a freshly provisioned directory gives the requested processors and memory, boots
      by EFI from the identity that CreateVM made, and writes nothing. It attaches exactly the disks
      asked for, in order, exactly when every source can be opened through the link that stands for
      it and the framework is willing; in copy mode only the framework can fail it. */
  lemma ProvisionThenBuild(t: Tree, a: Args, supply: Supply, f: Foreign, hops: nat)
    requires GoodArgs(t, a, hops)
    ensures Provisioned(t, a, supply, {}, hops).Some?
    ensures var u, dir := Provisioned(t, a, supply, {}, hops).value, a.vmDir;
            var cfg := ConfigIn(u, dir, hops);
            var boot := BootOf(u, dir, cfg, f, hops);
            && cfg.cpu == a.cpu && cfg.memGiB == a.memGiB && cfg.shares == [] && !MicroVmFlag(u, dir, hops)
            && boot == Efi(FileOf(dir, Nvram)) && StoreOpened(u, dir, boot, f, hops) == u
            && MacOf(u, dir, f, hops) == (if f.mac(supply(Mac)) then Some(supply(Mac)) else None)
            && (Buildable(u, dir, boot, cfg, f, hops) && Storage(u, dir, cfg, hops) == ExpectedStorage(a)
                <==> AllOpen(t, a, hops) && FrameworkWilling(f, ExpectedStorage(a)))
            && (a.copyMode ==> AllOpen(t, a, hops) && Storage(u, dir, cfg, hops) == ExpectedStorage(a))
  {
    ProvisionedStorage(t, a, supply, f, hops);
    ProvisionedReading(t, a, supply, f, hops);
  }

  // -- Sources at the end of a long chain ----------------------------------------------------

  function ChainPath(n: nat): Path { seq(n + 1, _ => "src") }

  /** A file behind `n` links. */
  function Chain(n: nat): Tree {
    if n == 0 then map[ChainPath(0) := File(Raw(""))] else Chain(n - 1)[ChainPath(n) := Link(ChainPath(n - 1))]
  }

  lemma {:induction false} ChainPaths(n: nat)
    ensures forall p | p in Chain(n) :: 1 <= |p| <= n + 1 && p[0] == "src"
    ensures ChainPath(n) in Chain(n) && |ChainPath(n)| == n + 1
  {
    if n > 0 { ChainPaths(n - 1); }
  }

  lemma {:induction false} ChainNode(n: nat, m: nat)
    requires m <= n
    ensures ChainPath(m) in Chain(n)
    ensures Chain(n)[ChainPath(m)] == if m == 0 then File(Raw("")) else Link(ChainPath(m - 1))
  {
    assert |ChainPath(m)| == m + 1 && |ChainPath(n)| == n + 1;
    if m < n { ChainNode(n - 1, m); }
  }

  /** A longer chain holds the shorter one. */
  lemma {:induction false} ChainFinal(n: nat, m: nat, hops: nat)
    requires m <= n
    ensures Final(Chain(n), ChainPath(m), hops) == if m <= hops then Some(ChainPath(0)) else None
    decreases n + m
  {
    ChainNode(n, m);
    if m > 0 && hops > 0 { ChainFinal(n, m - 1, hops - 1); }
  }

  lemma {:induction false} ChainOutside(n: nat, m: nat, hops: nat, dir: Path)
    requires m <= n && dir != [] && dir[0] != "src"
    ensures Outside(Chain(n), ChainPath(m), dir, hops)
    decreases m
  {
    ChainNode(n, m);
    assert ChainPath(m)[0] == "src";
    if m > 0 && hops > 0 { ChainOutside(n, m - 1, hops - 1, dir); }
  }

  /** However many links the kernel follows, there are arguments that provision accepts and from which
      the builder then gets no image: a link to a file that is found only with the last of them. */
  lemma LastLinkIsTooMany(hops: nat) returns (t: Tree, a: Args)
    ensures GoodArgs(t, a, hops) && !a.copyMode && !AllOpen(t, a, hops)
  {
    t, a := Chain(hops), Args(["vm"], ChainPath(hops), [], None, 1, 1, false);
    ChainPaths(hops);
    forall p | p in t
      ensures !(a.vmDir <= p)
    {
      assert p[0] == "src";
    }
    ChainOutside(hops, hops, hops, a.vmDir);
    ChainFinal(hops, hops, hops);
    ChainNode(hops, 0);
    if hops > 0 { ChainFinal(hops, hops, hops - 1); }
  }
}
