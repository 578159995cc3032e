/** AttachDisk and DetachDisk: the files behind a VM's extra disks. */
module BackingFiles {
  import opened Basics
  import opened FileSystem

  const HALF: int := 0x8000_0000_0000_0000
  const GIB: int := 0x4000_0000

  /** The int64 that a wrapping computation leaves. */
  function Wrap64(x: int): int { (x + HALF) % WORD - HALF }

  /** int64(SizeGiB) * 1024 * 1024 * 1024, each product wrapping. */
  function SizeBytes(gib: int): int { Wrap64(Wrap64(Wrap64(Wrap64(gib) * 1024) * 1024) * 1024) }

  /** The size is what was asked for exactly when it is below 2^33 GiB. */
  lemma SizeIsExact(gib: int)
    requires 0 < gib < HALF
    ensures SizeBytes(gib) == gib * GIB <==> gib < 0x2_0000_0000
  {
  }

  /** At 2^34 GiB the product wraps to nothing, and AttachDisk would create an empty disk. */
  lemma HugeDiskIsEmpty()
    ensures SizeBytes(0x4_0000_0000) == 0
  {
  }

  /** `image` says whether the framework creates the image it is asked for, and `left` what it leaves
      at the path when it does not. */
  datatype Op =
    | Attach(vm: string, backing: Path, gib: int, mkdir: bool, image: bool, left: Option<Content>)
    | Detach(volume: Path, fails: bool)

  /** When AttachDisk asks the framework for an image. */
  predicate Asks(t: Tree, op: Op, hops: nat)
    requires op.Attach?
  {
    op.vm != "" && op.backing != [] && StatOf(t, op.backing, hops).Missing? && op.gib > 0 && op.mkdir
  }

  /** When AttachDisk creates a file. */
  predicate Creates(t: Tree, op: Op, hops: nat)
    requires op.Attach?
  {
    Asks(t, op, hops) && op.image && SizeBytes(op.gib) >= 0
  }

  /** When the call returns nil. */
  predicate Succeeds(t: Tree, op: Op, hops: nat) {
    match op
    case Attach(vm, backing, _, _, _, _) =>
      (vm != "" && backing != [] && StatOf(t, backing, hops).Found?) || Creates(t, op, hops)
    case Detach(volume, fails) => volume != [] && (volume !in t || !fails)
  }

  function Next(t: Tree, op: Op, hops: nat): Tree {
    match op
    case Attach(_, backing, gib, _, _, left) =>
      if Creates(t, op, hops) then Written(t, backing, Blank(SizeBytes(gib)), hops)
      else if Asks(t, op, hops) && left.Some? then Written(t, backing, left.value, hops)
      else t
    case Detach(volume, fails) => if Succeeds(t, op, hops) then t - {volume} else t
  }

  method AttachDisk(host: Host, vmUUID: string, backing: Path, sizeGiB: int, mkdir: bool, image: bool,
                    left: Option<Content>)
    returns (ok: bool)
    modifies host
    ensures var op := Attach(vmUUID, backing, sizeGiB, mkdir, image, left);
            && ok == Succeeds(old(host.tree), op, host.maxHops)
            && host.tree == Next(old(host.tree), op, host.maxHops)
    ensures var found := StatOf(old(host.tree), backing, host.maxHops);
            && (ok <==> vmUUID != "" && backing != []
                        && (found.Found?
                            || (found.Missing? && sizeGiB > 0 && mkdir && image && SizeBytes(sizeGiB) >= 0)))
            && (!found.Missing? || vmUUID == "" || backing == [] || sizeGiB <= 0 || !mkdir
                ==> host.tree == old(host.tree))
            && (ok && found.Missing? ==> host.Look(backing) == Found(Blank(SizeBytes(sizeGiB))))
  {
    ghost var was := host.tree;
    if vmUUID == "" || backing == [] {
      return false;
    }
    var found := host.Look(backing);
    if found.Found? {
      return true;
    }
    if found.Failed? || sizeGiB <= 0 || !mkdir {
      return false;
    }
    var sizeBytes := SizeBytes(sizeGiB);
    if sizeBytes < 0 || !image {
      if left.Some? {
        var _ := host.WriteFile(backing, left.value, false);
      }
      return false;
    }
    WrittenIsFound(was, backing, Blank(sizeBytes), host.maxHops);
    ok := host.WriteFile(backing, Blank(sizeBytes), false);
  }

  method DetachDisk(host: Host, volumeUUID: Path, fails: bool) returns (ok: bool)
    modifies host
    ensures ok == Succeeds(old(host.tree), Detach(volumeUUID, fails), host.maxHops)
    ensures host.tree == Next(old(host.tree), Detach(volumeUUID, fails), host.maxHops)
    ensures ok <==> volumeUUID != [] && !(volumeUUID in old(host.tree) && fails)
    ensures ok ==> volumeUUID !in host.tree
    ensures !ok ==> host.tree == old(host.tree)
    ensures host.tree - {volumeUUID} == old(host.tree) - {volumeUUID}
  {
    if volumeUUID == [] {
      return false;
    }
    if volumeUUID in host.tree && fails {
      return false;
    }
    host.Remove(volumeUUID);
    return true;
  }

  function Run(t: Tree, ops: seq<Op>, hops: nat): Tree {
    if ops == [] then t else Next(Run(t, ops[..|ops| - 1], hops), ops[|ops| - 1], hops)
  }

  /** A step changes nothing at a path but by a DetachDisk of that very path. */
  lemma StepPreserves(t: Tree, op: Op, hops: nat, p: Path)
    requires p in t && !(op.Detach? && op.volume == p)
    ensures p in Next(t, op, hops) && Next(t, op, hops)[p] == t[p]
  {
    if op.Attach? && Asks(t, op, hops) {
      WrittenOnlyAdds(t, op.backing, Blank(SizeBytes(op.gib)), hops);
      if op.left.Some? { WrittenOnlyAdds(t, op.backing, op.left.value, hops); }
    }
  }

  /** Over any run of attachments and detachments of any paths, what is at a path stays as it is
      until that path is detached. */
  lemma {:induction false} BackingIsPreserved(t: Tree, ops: seq<Op>, hops: nat, p: Path, n: nat)
    requires n <= |ops| && p in Run(t, ops[..n], hops)
    requires forall k | n <= k < |ops| :: !(ops[k].Detach? && ops[k].volume == p)
    ensures p in Run(t, ops, hops) && Run(t, ops, hops)[p] == Run(t, ops[..n], hops)[p]
    decreases |ops|
  {
    if n == |ops| {
      assert ops[..n] == ops;
    } else {
      var front := ops[..|ops| - 1];
      assert front[..n] == ops[..n];
      BackingIsPreserved(t, front, hops, p, n);
      StepPreserves(Run(t, front, hops), ops[|ops| - 1], hops, p);
    }
  }

  /** The first successful attachment of a missing path makes a file of exactly the size asked for
      as long as that is below 2^33 GiB, and attaching it again changes nothing. */
  lemma AttachCreatesExactly(t: Tree, op: Op, hops: nat)
    requires op.Attach? && Succeeds(t, op, hops) && StatOf(t, op.backing, hops).Missing? && op.gib < HALF
    ensures StatOf(Next(t, op, hops), op.backing, hops) == Found(Blank(op.gib * GIB)) <==> op.gib < 0x2_0000_0000
    ensures forall again: Op | again.Attach? && again.backing == op.backing ::
              Next(Next(t, op, hops), again, hops) == Next(t, op, hops)
  {
    WrittenIsFound(t, op.backing, Blank(SizeBytes(op.gib)), hops);
    SizeIsExact(op.gib);
  }

  /** The success of a retry says nothing about the size: it finds whatever a failed call left, which
      is the size asked for only if the framework left exactly that. */
  lemma RetryKeepsWhatWasLeft(t: Tree, op: Op, again: Op, hops: nat)
    requires op.Attach? && Asks(t, op, hops) && !Creates(t, op, hops)
    requires again.Attach? && again.vm == op.vm && again.backing == op.backing && again.gib == op.gib
    requires again.image && again.mkdir && SizeBytes(op.gib) >= 0
    ensures var u := Next(Next(t, op, hops), again, hops);
            && !Succeeds(t, op, hops) && Succeeds(Next(t, op, hops), again, hops)
            && (StatOf(u, op.backing, hops) == Found(Blank(SizeBytes(op.gib)))
                <==> op.left.None? || op.left == Some(Blank(SizeBytes(op.gib))))
  {
    WrittenIsFound(t, op.backing, Blank(SizeBytes(op.gib)), hops);
    if op.left.Some? { WrittenIsFound(t, op.backing, op.left.value, hops); }
  }

  /** Over whole runs: after a successful detachment the path is gone, whatever came before, and an
      attachment that then succeeds starts from a new image; a failed one leaves everything. */
  lemma DetachThenAttachIsNew(t: Tree, ops: seq<Op>, volume: Path, fails: bool, again: Op, hops: nat)
    requires again.Attach? && again.backing == volume && again.gib < HALF
    ensures var u := Run(t, ops, hops);
            var v := Run(t, ops + [Detach(volume, fails)], hops);
            && (if volume != [] && !(volume in u && fails) then volume !in v && v == u - {volume} else v == u)
            && (volume !in v && Succeeds(v, again, hops) && again.gib < 0x2_0000_0000
                ==> StatOf(Next(v, again, hops), volume, hops) == Found(Blank(again.gib * GIB)))
  {
    assert (ops + [Detach(volume, fails)])[..|ops|] == ops;
    var v := Run(t, ops + [Detach(volume, fails)], hops);
    if volume !in v && Succeeds(v, again, hops) {
      AttachCreatesExactly(v, again, hops);
    }
  }
}
