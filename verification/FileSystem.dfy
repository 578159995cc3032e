/** Files and symbolic links, as the driver's os calls see them. Directories are implicit: a path
    is the list of its components, and `dir + [name]` is filepath.Join. */
module FileSystem {
  import opened Basics

  type Path = seq<string>

  /** A virtio-fs share in config.json. */
  datatype Share = Share(tag: string, path: string, readOnly: bool)

  /** The fields of config.json that the driver reads; a missing field has its zero value. */
  datatype VmConfig =
    VmConfig(dataDisks: seq<string>, cpu: nat, memGiB: nat, cmdline: string, shares: seq<Share>, microvm: bool)

  const NO_CONFIG: VmConfig := VmConfig([], 0, 0, "", [], false)

  /** What a file holds: bytes, a disk image of zeros, or a decoded config.json. */
  datatype Content = Raw(bytes: Bytes) | Blank(size: int) | Config(cfg: VmConfig)

  datatype Node = File(data: Content) | Link(target: Path)

  type Tree = map<Path, Node>

  function PidFile(dir: Path): Path { dir + ["vm.pid"] }

  /** What stat and open find: a file, nothing at the end of the links, or too many links. */
  datatype Stat = Found(data: Content) | Missing | Failed

  /** The path that is left after following at most `hops` links, if they lead anywhere. */
  function Final(t: Tree, p: Path, hops: nat): Option<Path>
    decreases hops
  {
    if p in t && t[p].Link? then if hops == 0 then None else Final(t, t[p].target, hops - 1)
    else Some(p)
  }

  function StatOf(t: Tree, p: Path, hops: nat): Stat {
    match Final(t, p, hops)
    case None => Failed
    case Some(q) => if q in t && t[q].File? then Found(t[q].data) else Missing
  }

  /** A regular file that stays one: the file at the end of the links, or a new one there. */
  function Written(t: Tree, p: Path, data: Content, hops: nat): Tree {
    match Final(t, p, hops)
    case None => t
    case Some(q) => t[q := File(data)]
  }

  lemma {:induction false} FinalIsNoLink(t: Tree, p: Path, hops: nat)
    ensures Final(t, p, hops).Some? ==> !(Final(t, p, hops).value in t && t[Final(t, p, hops).value].Link?)
    decreases hops
  {
    if p in t && t[p].Link? && hops > 0 {
      FinalIsNoLink(t, t[p].target, hops - 1);
    }
  }

  /** Creating something where there was nothing disturbs no file that could be found before. */
  lemma {:induction false} AddKeepsFound(t: Tree, q: Path, n: Node, p: Path, hops: nat)
    requires q !in t && StatOf(t, p, hops).Found?
    ensures StatOf(t[q := n], p, hops) == StatOf(t, p, hops)
    decreases hops
  {
    if p in t && t[p].Link? {
      AddKeepsFound(t, q, n, t[p].target, hops - 1);
    }
  }

  lemma {:induction false} WrittenIsFound(t: Tree, p: Path, data: Content, hops: nat)
    requires Final(t, p, hops).Some?
    ensures StatOf(Written(t, p, data, hops), p, hops) == Found(data)
    decreases hops
  {
    if p in t && t[p].Link? {
      WrittenIsFound(t, t[p].target, data, hops - 1);
      FinalIsNoLink(t, p, hops);
    }
  }

  /** `u` is `t` with some new files: every node of `t` is as it was, and no link is new. */
  ghost predicate OnlyAdds(t: Tree, u: Tree) {
    && (forall q | q in t :: q in u && u[q] == t[q])
    && (forall q | q in u && q !in t :: u[q].File?)
  }

  /** Writing where nothing is found adds one file. */
  lemma WrittenOnlyAdds(t: Tree, p: Path, data: Content, hops: nat)
    requires StatOf(t, p, hops).Missing?
    ensures OnlyAdds(t, Written(t, p, data, hops))
  {
    FinalIsNoLink(t, p, hops);
  }

  /** More patience with links finds what was found before. */
  lemma {:induction false} MoreHops(t: Tree, p: Path, hops: nat)
    requires StatOf(t, p, hops).Found?
    ensures StatOf(t, p, hops + 1) == StatOf(t, p, hops)
    decreases hops
  {
    if p in t && t[p].Link? {
      MoreHops(t, t[p].target, hops - 1);
    }
  }

  /** Neither `p` nor any link it leads through lies in `dir`. */
  predicate Outside(t: Tree, p: Path, dir: Path, hops: nat)
    decreases hops
  {
    && !(dir <= p)
    && (p in t && t[p].Link? ==> hops == 0 || Outside(t, t[p].target, dir, hops - 1))
  }

  /** `t` and `u` agree everywhere but in `dir`. */
  ghost predicate SameOutside(t: Tree, u: Tree, dir: Path) {
    forall p | !(dir <= p) :: (p in t <==> p in u) && (p in t ==> t[p] == u[p])
  }

  lemma {:induction false} OutsideUnaffected(t: Tree, u: Tree, p: Path, dir: Path, hops: nat)
    requires SameOutside(t, u, dir) && Outside(t, p, dir, hops)
    ensures StatOf(u, p, hops) == StatOf(t, p, hops)
    decreases hops
  {
    if p in t && t[p].Link? && hops > 0 {
      OutsideUnaffected(t, u, t[p].target, dir, hops - 1);
    }
  }

  /** The host's file system; the kernel follows at most `maxHops` links. */
  class Host {
    var tree: Tree
    const maxHops: nat

    constructor (maxHops: nat)
      ensures tree == map[] && this.maxHops == maxHops
    {
      tree := map[];
      this.maxHops := maxHops;
    }

    function Look(p: Path): Stat
      reads this
    {
      StatOf(tree, p, maxHops)
    }

    /** os.Remove of a file or link, its error ignored. */
    method Remove(p: Path)
      modifies this
      ensures tree == old(tree) - {p}
    {
      tree := tree - {p};
    }

    /** os.WriteFile, all or nothing; `fails` is an error of the kernel's own. */
    method WriteFile(p: Path, data: Content, fails: bool) returns (ok: bool)
      modifies this
      ensures ok <==> !fails && Final(old(tree), p, maxHops).Some?
      ensures tree == if ok then Written(old(tree), p, data, maxHops) else old(tree)
    {
      ok := !fails && Final(tree, p, maxHops).Some?;
      if ok {
        tree := Written(tree, p, data, maxHops);
      }
    }

    /** os.Symlink refuses to replace anything. */
    method Symlink(target: Path, p: Path, fails: bool) returns (ok: bool)
      modifies this
      ensures ok <==> !fails && p !in old(tree)
      ensures tree == if ok then old(tree)[p := Link(target)] else old(tree)
    {
      ok := !fails && p !in tree;
      if ok {
        tree := tree[p := Link(target)];
      }
    }
  }
}
