/** The Reboot button: ask the guest to stop, force it after 30 s, start it again once stopped. */
module Reboot {
  import opened Basics

  const PERIOD: int := 200 * MILLISECOND
  const PATIENCE: int := 30 * SECOND

  /** A call the reboot goroutine makes on the VM. Its errors are only printed. */
  datatype Call = RequestStop | HardStop | Start

  /** What one turn of a polling loop sees: whether the VM reads as Stopped, and the time. */
  datatype Look = Look(stopped: bool, now: int)

  /** The first loop ends at a look that finds the VM stopped or the deadline passed. */
  predicate Decides(look: Look, deadline: int) { look.stopped || look.now > deadline }

  ghost predicate FirstDecides(looks: seq<Look>, deadline: int, k: nat) {
    && k < |looks| && Decides(looks[k], deadline)
    && forall j | 0 <= j < k :: !Decides(looks[j], deadline)
  }

  /** The deciding look came with the deadline passed and the VM still not stopped. */
  ghost predicate RanOutOfPatience(looks: seq<Look>, deadline: int) {
    exists k: nat :: FirstDecides(looks, deadline, k) && !looks[k].stopped
  }

  ghost predicate StoppedAfter(looks: seq<Look>, k: int) {
    exists m | 0 <= m < |looks| :: k < m && looks[m].stopped
  }

  /** A look after the deciding one found the VM stopped. */
  ghost predicate SeenStopped(looks: seq<Look>, deadline: int) {
    exists k: nat :: FirstDecides(looks, deadline, k) && StoppedAfter(looks, k)
  }

  /** goVMReboot, for any prefix of the looks of a run. The guest, the framework and other users of
      the VM may do anything between two looks. */
  method GoVMReboot(hasVm: bool, begin: int, looks: seq<Look>) returns (calls: seq<Call>)
    ensures !hasVm ==> calls == []
    ensures hasVm ==> calls == [RequestStop] || calls == [RequestStop, Start]
                      || calls == [RequestStop, HardStop] || calls == [RequestStop, HardStop, Start]
    ensures hasVm ==> (HardStop in calls <==> RanOutOfPatience(looks, begin + 30_000_000_000))
    ensures hasVm ==> (Start in calls <==> SeenStopped(looks, begin + 30_000_000_000))
  {
    calls := [];
    if !hasVm {
      return;
    }
    calls := [RequestStop];
    var deadline := begin + PATIENCE;
    var k := 0;
    while k < |looks| && !looks[k].stopped
      invariant 0 <= k <= |looks|
      invariant calls == [RequestStop]
      invariant forall j | 0 <= j < k :: !Decides(looks[j], deadline)
    {
      if looks[k].now > deadline {
        calls := calls + [HardStop];
        break;
      }
      k := k + 1;
    }
    if k == |looks| {
      return; // still polling
    }
    assert FirstDecides(looks, deadline, k);
    assert forall j: nat | FirstDecides(looks, deadline, j) :: j == k;
    assert calls == if looks[k].stopped then [RequestStop] else [RequestStop, HardStop];
    assert HardStop in calls <==> !looks[k].stopped;
    var m := k + 1;
    while m < |looks| && !looks[m].stopped
      invariant k < m <= |looks|
      invariant forall j | k < j < m :: !looks[j].stopped
    {
      m := m + 1;
    }
    if m < |looks| {
      assert StoppedAfter(looks, k);
      calls := calls + [Start];
      assert calls[|calls| - 1] == Start;
    } else {
      assert !StoppedAfter(looks, k);
    }
  }

  /** Looks are at least 200 ms apart, the first not before RequestStop has returned. */
  ghost predicate LooksApart(begin: int, looks: seq<Look>) {
    && (looks != [] ==> looks[0].now >= begin)
    && forall k | 1 <= k < |looks| :: looks[k].now >= looks[k - 1].now + PERIOD
  }

  lemma {:induction false} LookTime(begin: int, looks: seq<Look>, k: nat)
    requires LooksApart(begin, looks) && k < |looks|
    ensures looks[k].now >= begin + k * PERIOD
  {
    if k > 0 {
      LookTime(begin, looks, k - 1);
    }
  }

  /** A guest that never stops by itself is stopped by force within 152 looks, and no sooner than
      the deadline. */
  lemma HardStopInTime(begin: int, looks: seq<Look>) returns (k: nat)
    requires LooksApart(begin, looks) && |looks| >= 152
    requires forall j | 0 <= j < 152 :: !looks[j].stopped
    ensures FirstDecides(looks, begin + PATIENCE, k) && k < 152 && !looks[k].stopped
    ensures looks[k].now > begin + 30_000_000_000
  {
    LookTime(begin, looks, 151);
    k := 0;
    while !Decides(looks[k], begin + PATIENCE)
      invariant k <= 151 && forall j | 0 <= j < k :: !Decides(looks[j], begin + PATIENCE)
      decreases 151 - k
    {
      k := k + 1;
    }
  }
}
