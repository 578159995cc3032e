/** The files that give a VM its identity: nvram.bin, machine-id.bin and mac.txt. */
module Identity {
  import opened Basics
  import opened FileSystem

  datatype Part = Nvram | MachineId | Mac

  function NameOf(part: Part): string {
    match part
    case Nvram => "nvram.bin"
    case MachineId => "machine-id.bin"
    case Mac => "mac.txt"
  }

  function FileOf(dir: Path, part: Part): Path { dir + [NameOf(part)] }

  /** Freshly generated contents, one for each part. */
  type Supply = Part -> Content

  /** Makes sure one file exists: kept if it can be found, created if there is none, and given up
      if stat fails otherwise or the generator or the write does. */
  function Ensured(t: Tree, dir: Path, part: Part, supply: Supply, fails: set<Part>, hops: nat): (Tree, bool) {
    match StatOf(t, FileOf(dir, part), hops)
    case Found(_) => (t, true)
    case Missing => if part in fails then (t, false) else (Written(t, FileOf(dir, part), supply(part), hops), true)
    case Failed => (t, false)
  }

  /** CreateVM: the three files in order, up to the first failure. */
  function Created(t: Tree, dir: Path, supply: Supply, fails: set<Part>, hops: nat): (Tree, bool) {
    var (t1, ok1) := Ensured(t, dir, Nvram, supply, fails, hops);
    if !ok1 then (t1, false)
    else
      var (t2, ok2) := Ensured(t1, dir, MachineId, supply, fails, hops);
      if !ok2 then (t2, false) else Ensured(t2, dir, Mac, supply, fails, hops)
  }

  method EnsurePart(host: Host, dir: Path, part: Part, supply: Supply, fails: set<Part>) returns (ok: bool)
    modifies host
    ensures (host.tree, ok) == Ensured(old(host.tree), dir, part, supply, fails, host.maxHops)
  {
    var found := host.Look(FileOf(dir, part));
    if found.Found? {
      return true;
    }
    if found.Failed? || part in fails {
      return false;
    }
    ok := host.WriteFile(FileOf(dir, part), supply(part), false);
  }

  /** An empty UUID, or a directory that cannot be made, is refused before anything is touched. */
  method CreateVM(host: Host, uuid: Path, supply: Supply, fails: set<Part>, mkdir: bool) returns (ok: bool)
    modifies host
    ensures if uuid == [] || !mkdir then !ok && host.tree == old(host.tree)
            else (host.tree, ok) == Created(old(host.tree), uuid, supply, fails, host.maxHops)
  {
    if uuid == [] || !mkdir {
      return false;
    }
    ok := EnsurePart(host, uuid, Nvram, supply, fails);
    if !ok {
      return;
    }
    ok := EnsurePart(host, uuid, MachineId, supply, fails);
    if !ok {
      return;
    }
    ok := EnsurePart(host, uuid, Mac, supply, fails);
  }

  // -- One call ------------------------------------------------------------------------------

  lemma EnsuredKeeps(t: Tree, dir: Path, part: Part, supply: Supply, fails: set<Part>, hops: nat, p: Path)
    requires StatOf(t, p, hops).Found?
    ensures StatOf(Ensured(t, dir, part, supply, fails, hops).0, p, hops) == StatOf(t, p, hops)
  {
    var q := FileOf(dir, part);
    FinalIsNoLink(t, q, hops);
    if StatOf(t, q, hops).Missing? {
      AddKeepsFound(t, Final(t, q, hops).value, File(supply(part)), p, hops);
    }
  }

  lemma EnsuredIsThere(t: Tree, dir: Path, part: Part, supply: Supply, fails: set<Part>, hops: nat)
    ensures var (u, ok) := Ensured(t, dir, part, supply, fails, hops);
            ok ==> StatOf(u, FileOf(dir, part), hops).Found?
  {
    if StatOf(t, FileOf(dir, part), hops).Missing? {
      WrittenIsFound(t, FileOf(dir, part), supply(part), hops);
    }
  }

  /** Whatever fails and however often it is retried, CreateVM changes no file that exists; and when
      it succeeds all three parts are there. */
  lemma CreatedKeeps(t: Tree, dir: Path, supply: Supply, fails: set<Part>, hops: nat)
    ensures var (u, ok) := Created(t, dir, supply, fails, hops);
            && (forall p | StatOf(t, p, hops).Found? :: StatOf(u, p, hops) == StatOf(t, p, hops))
            && (ok ==> forall part :: StatOf(u, FileOf(dir, part), hops).Found?)
  {
    var (t1, ok1) := Ensured(t, dir, Nvram, supply, fails, hops);
    var (t2, ok2) := Ensured(t1, dir, MachineId, supply, fails, hops);
    var (t3, ok3) := Ensured(t2, dir, Mac, supply, fails, hops);
    forall p
      ensures StatOf(t, p, hops).Found? ==> StatOf(t1, p, hops) == StatOf(t, p, hops)
      ensures StatOf(t1, p, hops).Found? ==> StatOf(t2, p, hops) == StatOf(t1, p, hops)
      ensures StatOf(t2, p, hops).Found? ==> StatOf(t3, p, hops) == StatOf(t2, p, hops)
    {
      if StatOf(t, p, hops).Found? { EnsuredKeeps(t, dir, Nvram, supply, fails, hops, p); }
      if StatOf(t1, p, hops).Found? { EnsuredKeeps(t1, dir, MachineId, supply, fails, hops, p); }
      if StatOf(t2, p, hops).Found? { EnsuredKeeps(t2, dir, Mac, supply, fails, hops, p); }
    }
    EnsuredIsThere(t, dir, Nvram, supply, fails, hops);
    EnsuredIsThere(t1, dir, MachineId, supply, fails, hops);
    EnsuredIsThere(t2, dir, Mac, supply, fails, hops);
    forall part | ok1 && ok2 && ok3
      ensures StatOf(t3, FileOf(dir, part), hops).Found?
    {
      match part
      case Nvram =>
      case MachineId =>
      case Mac =>
    }
  }

  // -- Whole runs ----------------------------------------------------------------------------

  /** What the driver does to the files of one VM between provisioning and deletion. */
  datatype Op =
    | Create(supply: Supply, fails: set<Part>)
    | Build(efi: bool, blank: Content, stored: bool) // opening the EFI store creates it if there is none
    | WritePid(pid: Bytes)
    | RemovePid
    | Attach(backing: Path, made: Option<Content>) // the image, or what a failed creation leaves

  function Next(t: Tree, dir: Path, op: Op, hops: nat): Tree {
    match op
    case Create(supply, fails) => Created(t, dir, supply, fails, hops).0
    case Build(efi, blank, stored) =>
      if efi && stored && StatOf(t, FileOf(dir, Nvram), hops).Missing? then
        Written(t, FileOf(dir, Nvram), blank, hops)
      else t
    case WritePid(pid) => Written(t, PidFile(dir), Raw(pid), hops)
    case RemovePid => t - {PidFile(dir)}
    case Attach(backing, made) =>
      if made.Some? && StatOf(t, backing, hops).Missing? then Written(t, backing, made.value, hops) else t
  }

  function Run(t: Tree, dir: Path, ops: seq<Op>, hops: nat): Tree {
    if ops == [] then t else Next(Run(t, dir, ops[..|ops| - 1], hops), dir, ops[|ops| - 1], hops)
  }

  /** The directory's own identity and pid files are not symbolic links. */
  ghost predicate NoLinks(t: Tree, dir: Path) {
    && (PidFile(dir) in t ==> t[PidFile(dir)].File?)
    && (forall part :: FileOf(dir, part) in t ==> t[FileOf(dir, part)].File?)
  }

  lemma NamesDistinct(dir: Path, p: Part)
    ensures FileOf(dir, p) != PidFile(dir)
    ensures forall q | FileOf(dir, p) == FileOf(dir, q) :: p == q
  {
    assert FileOf(dir, p)[|dir|] == NameOf(p) && PidFile(dir)[|dir|] == "vm.pid";
    forall q | FileOf(dir, p) == FileOf(dir, q)
      ensures p == q
    {
      assert FileOf(dir, q)[|dir|] == NameOf(q);
      assert |NameOf(Nvram)| == 9 && |NameOf(MachineId)| == 14 && |NameOf(Mac)| == 7;
    }
  }

  lemma EnsuredExactly(t: Tree, dir: Path, part: Part, supply: Supply, fails: set<Part>, hops: nat)
    requires NoLinks(t, dir)
    ensures var q := FileOf(dir, part);
            Ensured(t, dir, part, supply, fails, hops)
            == if q in t then (t, true) else if part in fails then (t, false) else (t[q := File(supply(part))], true)
  {
  }

  /** CreateVM succeeds exactly when nothing fails that has to be made; whatever it makes, up to the
      first failure, is one of the three parts with its own new contents. */
  lemma CreatedExactly(t: Tree, dir: Path, supply: Supply, fails: set<Part>, hops: nat)
    requires NoLinks(t, dir)
    ensures var (u, ok) := Created(t, dir, supply, fails, hops);
            && (ok <==> forall part :: FileOf(dir, part) in t || part !in fails)
            && (forall part | FileOf(dir, part) in u && FileOf(dir, part) !in t ::
                  u[FileOf(dir, part)] == File(supply(part)))
            && (forall p | p in u && p !in t :: exists part :: p == FileOf(dir, part) && part !in fails)
            && (FileOf(dir, Nvram) in u <==> FileOf(dir, Nvram) in t || Nvram !in fails)
            && (FileOf(dir, MachineId) in u
                <==> FileOf(dir, MachineId) in t || (MachineId !in fails && FileOf(dir, Nvram) in u))
            && (FileOf(dir, Mac) in u
                <==> FileOf(dir, Mac) in t
                     || (Mac !in fails && FileOf(dir, Nvram) in u && FileOf(dir, MachineId) in u))
  {
    NamesDistinct(dir, Nvram);
    NamesDistinct(dir, MachineId);
    NamesDistinct(dir, Mac);
    var (t1, ok1) := Ensured(t, dir, Nvram, supply, fails, hops);
    EnsuredExactly(t, dir, Nvram, supply, fails, hops);
    var (t2, ok2) := Ensured(t1, dir, MachineId, supply, fails, hops);
    EnsuredExactly(t1, dir, MachineId, supply, fails, hops);
    EnsuredExactly(t2, dir, Mac, supply, fails, hops);
    assert (forall part :: FileOf(dir, part) in t || part !in fails)
        <==> forall part | part == Nvram || part == MachineId || part == Mac ::
               FileOf(dir, part) in t || part !in fails;
  }

  lemma EnsuredOnlyAdds(t: Tree, dir: Path, part: Part, supply: Supply, fails: set<Part>, hops: nat)
    ensures OnlyAdds(t, Ensured(t, dir, part, supply, fails, hops).0)
  {
    if StatOf(t, FileOf(dir, part), hops).Missing? {
      WrittenOnlyAdds(t, FileOf(dir, part), supply(part), hops);
    }
  }

  lemma CreatedOnlyAdds(t: Tree, dir: Path, supply: Supply, fails: set<Part>, hops: nat)
    ensures OnlyAdds(t, Created(t, dir, supply, fails, hops).0)
  {
    var t1 := Ensured(t, dir, Nvram, supply, fails, hops).0;
    var t2 := Ensured(t1, dir, MachineId, supply, fails, hops).0;
    EnsuredOnlyAdds(t, dir, Nvram, supply, fails, hops);
    EnsuredOnlyAdds(t1, dir, MachineId, supply, fails, hops);
    EnsuredOnlyAdds(t2, dir, Mac, supply, fails, hops);
  }

  /** Every operation but those on vm.pid only adds files. */
  lemma NextOnlyAdds(t: Tree, dir: Path, op: Op, hops: nat)
    requires !op.WritePid? && !op.RemovePid?
    ensures OnlyAdds(t, Next(t, dir, op, hops))
  {
    match op
    case Create(supply, fails) => CreatedOnlyAdds(t, dir, supply, fails, hops);
    case Build(_, blank, _) =>
      if StatOf(t, FileOf(dir, Nvram), hops).Missing? {
        WrittenOnlyAdds(t, FileOf(dir, Nvram), blank, hops);
      }
    case Attach(backing, made) =>
      if made.Some? && StatOf(t, backing, hops).Missing? {
        WrittenOnlyAdds(t, backing, made.value, hops);
      }
  }

  /** A step keeps every identity file, and makes none of the directory's own files a link. */
  lemma StepKeepsIdentity(t: Tree, dir: Path, op: Op, hops: nat, part: Part)
    requires NoLinks(t, dir)
    ensures NoLinks(Next(t, dir, op, hops), dir)
    ensures FileOf(dir, part) in t
            ==> FileOf(dir, part) in Next(t, dir, op, hops)
                && Next(t, dir, op, hops)[FileOf(dir, part)] == t[FileOf(dir, part)]
  {
    if op.WritePid? || op.RemovePid? {
      forall q: Part
        ensures FileOf(dir, q) != PidFile(dir)
      {
        NamesDistinct(dir, q);
      }
    } else {
      NextOnlyAdds(t, dir, op, hops);
    }
  }

  lemma {:induction false} RunKeepsNoLinks(t: Tree, dir: Path, ops: seq<Op>, hops: nat)
    requires NoLinks(t, dir)
    ensures NoLinks(Run(t, dir, ops, hops), dir)
  {
    if ops != [] {
      RunKeepsNoLinks(t, dir, ops[..|ops| - 1], hops);
      StepKeepsIdentity(Run(t, dir, ops[..|ops| - 1], hops), dir, ops[|ops| - 1], hops, Nvram);
    }
  }

  /** Over any run of creations that may fail at any step, config builds, starts, exits and disk
      attachments, an identity file that exists is never rewritten or removed. */
  lemma {:induction false} IdentityIsStable(t: Tree, dir: Path, ops: seq<Op>, hops: nat, part: Part, n: nat)
    requires NoLinks(t, dir) && n <= |ops|
    requires FileOf(dir, part) in Run(t, dir, ops[..n], hops)
    ensures NoLinks(Run(t, dir, ops, hops), dir)
    ensures FileOf(dir, part) in Run(t, dir, ops, hops)
            && Run(t, dir, ops, hops)[FileOf(dir, part)] == Run(t, dir, ops[..n], hops)[FileOf(dir, part)]
    decreases |ops|
  {
    if n == |ops| {
      assert ops[..n] == ops;
      RunKeepsNoLinks(t, dir, ops, hops);
    } else {
      var front := ops[..|ops| - 1];
      assert front[..n] == ops[..n];
      IdentityIsStable(t, dir, front, hops, part, n);
      StepKeepsIdentity(Run(t, dir, front, hops), dir, ops[|ops| - 1], hops, part);
    }
  }
}
