/** Driver load and unload: DriverEntry acquires the device, its symbolic
    link and the three notification hooks in a fixed order and, when a step
    fails, releases what it already holds in reverse; UnloadDriver releases
    everything in reverse and only then drains the record queue.

    The kernel calls are modelled by their effect on what the driver holds,
    and each call is recorded as a step of a log. The NTSTATUS each call
    returns is a parameter. */
module Lifecycle {
  import opened Wire
  import opened EventQueue

  datatype Resource = Device | SymbolicLink | ImageHook | ProcessHook | ThreadHook

  /** IoCreateDevice, IoCreateSymbolicLink, PsSetLoadImageNotifyRoutine,
      PsSetCreateProcessNotifyRoutineEx, PsSetCreateThreadNotifyRoutine. */
  const SetupOrder: seq<Resource> := [Device, SymbolicLink, ImageHook, ProcessHook, ThreadHook]

  predicate IsHook(r: Resource)
  {
    r == ImageHook || r == ProcessHook || r == ThreadHook
  }

  datatype Step = Acquire(res: Resource) | Release(res: Resource) | DrainQueue

  /** NT_SUCCESS: success and informational statuses are non-negative as 32-bit signed values. */
  predicate Succeeded(status: int)
  {
    status >= 0
  }

  /** The two statuses Read completes an IRP with classify as NT_SUCCESS
      classifies them: success succeeds, STATUS_INSUFFICIENT_RESOURCES fails. */
  lemma ReadStatusesClassified()
    ensures Succeeded(StatusSuccess) && !Succeeded(StatusInsufficientResources)
  {
  }

  /** The number of setup steps that succeed before the first failure. */
  function Completed(statuses: seq<int>): (k: nat)
    ensures k <= |statuses|
    ensures forall i :: 0 <= i < k ==> Succeeded(statuses[i])
    ensures k < |statuses| ==> !Succeeded(statuses[k])
  {
    if statuses == [] || !Succeeded(statuses[0]) then 0 else 1 + Completed(statuses[1..])
  }

  /** Releases of the given resources, last one first. */
  function ReleaseAll(rs: seq<Resource>): (steps: seq<Step>)
    ensures |steps| == |rs|
    ensures forall i :: 0 <= i < |rs| ==> steps[i] == Release(rs[|rs| - 1 - i])
  {
    if rs == [] then [] else [Release(rs[|rs| - 1])] + ReleaseAll(rs[..|rs| - 1])
  }

  function AcquireAll(rs: seq<Resource>): (steps: seq<Step>)
    ensures |steps| == |rs|
    ensures forall i :: 0 <= i < |rs| ==> steps[i] == Acquire(rs[i])
  {
    if rs == [] then [] else [Acquire(rs[0])] + AcquireAll(rs[1..])
  }

  /** The discipline the log must follow, as a replay: an acquisition pushes
      its resource, a release must release the most recently acquired
      resource still held, and the queue may be drained only once no hook is
      held (a hook could otherwise queue a record after the drain). The
      result is what is held at the end, or None if the log breaks the rule. */
  function Replay(log: seq<Step>): Option<seq<Resource>>
  {
    if log == [] then Some([])
    else
      var before := Replay(log[..|log| - 1]);
      if before.None? then None else Apply(before.value, log[|log| - 1])
  }

  function Apply(held: seq<Resource>, step: Step): Option<seq<Resource>>
  {
    match step
    case Acquire(r) => Some(held + [r])
    case Release(r) =>
      if held != [] && held[|held| - 1] == r then Some(held[..|held| - 1]) else None
    case DrainQueue =>
      if forall i :: 0 <= i < |held| ==> !IsHook(held[i]) then Some(held) else None
  }

  lemma ReplayStep(log: seq<Step>, step: Step)
    ensures Replay(log + [step]) == if Replay(log).None? then None else Apply(Replay(log).value, step)
  {
    assert (log + [step])[..|log|] == log;
  }

  class Driver {
    /** What the driver holds, in acquisition order. */
    var held: seq<Resource>
    /** Every kernel call made so far. */
    var log: seq<Step>
    /** DriverEntry succeeded and installed UnloadDriver. */
    var loaded: bool
    /** The record list and its count. */
    const queue: Queue

    /** The log obeys the acquire/release discipline and `held` is what it leaves held. */
    ghost predicate Valid()
      reads this
    {
      Replay(log) == Some(held)
    }

    constructor ()
      ensures Valid() && held == [] && log == [] && !loaded && queue.items == []
      ensures fresh(queue)
    {
      held, log, loaded := [], [], false;
      queue := new Queue();
    }

    /** DriverEntry: `statuses[i]` is what the i-th setup call returns. */
    method DriverEntry(statuses: seq<int>) returns (status: int)
      requires Valid() && held == [] && log == [] && !loaded
      requires |statuses| == |SetupOrder|
      modifies this
      ensures Valid()
      ensures var k := Completed(statuses);
        && (k == |SetupOrder| ==> status == statuses[k - 1] && Succeeded(status))
        && (k < |SetupOrder| ==> status == statuses[k] && !Succeeded(status))
        && loaded == (k == |SetupOrder|)
        && held == (if loaded then SetupOrder else [])
        && log == AcquireAll(SetupOrder[..k]) + (if loaded then [] else ReleaseAll(SetupOrder[..k]))
    {
      status := SetUp(statuses);
      if !Succeeded(status) {
        // The flags the source tests are exactly the steps that succeeded.
        Unwind();
        return;
      }
      assert SetupOrder[..|SetupOrder|] == SetupOrder;
      loaded := true;
    }

    /** The do-while block of DriverEntry: make the setup calls in order and
        stop at the first one that fails. */
    method SetUp(statuses: seq<int>) returns (status: int)
      requires Valid() && held == [] && log == [] && !loaded
      requires |statuses| == |SetupOrder|
      modifies this
      ensures Valid() && !loaded
      ensures var k := Completed(statuses);
        && (k == |SetupOrder| ==> status == statuses[k - 1] && Succeeded(status))
        && (k < |SetupOrder| ==> status == statuses[k] && !Succeeded(status))
        && held == SetupOrder[..k] && log == AcquireAll(held)
    {
      ghost var k := Completed(statuses);
      var i := 0;
      var acquired: seq<Resource> := [];
      status := 0;
      while i < |SetupOrder|
        invariant 0 <= i <= k
        invariant acquired == SetupOrder[..i]
        invariant i > 0 ==> status == statuses[i - 1]
      {
        status := statuses[i];
        if !Succeeded(status) {
          break;
        }
        acquired := acquired + [SetupOrder[i]];
        i := i + 1;
      }
      assert i == k by {
        if i < |SetupOrder| {
          assert !Succeeded(statuses[i]);
        }
      }
      ReplayAcquireAll(acquired);
      held, log := acquired, AcquireAll(acquired);
    }

    /** One release call; it must release the most recently acquired resource. */
    method Give(r: Resource)
      requires Valid() && held != [] && held[|held| - 1] == r
      modifies this
      ensures Valid()
      ensures held == old(held)[..|old(held)| - 1] && log == old(log) + [Release(r)] && loaded == old(loaded)
    {
      ReplayStep(log, Release(r));
      held := held[..|held| - 1];
      log := log + [Release(r)];
    }

    /** The failure path of DriverEntry: release what is held, newest first. */
    method Unwind()
      requires Valid()
      modifies this
      ensures Valid()
      ensures held == [] && log == old(log) + ReleaseAll(old(held)) && loaded == old(loaded)
    {
      while held != []
        invariant Replay(log) == Some(held)
        invariant log + ReleaseAll(held) == old(log) + ReleaseAll(old(held))
        invariant loaded == old(loaded)
        decreases |held|
      {
        var last := held[|held| - 1];
        assert ReleaseAll(held) == [Release(last)] + ReleaseAll(held[..|held| - 1]);
        Give(last);
      }
    }

    /** UnloadDriver: remove the thread, process and image hooks, delete the
        link and the device, then free every queued record. */
    method UnloadDriver()
      requires Valid() && loaded && held == SetupOrder && queue.Valid()
      modifies this, queue
      ensures Valid()
      ensures held == [] && queue.items == [] && queue.itemsCount == old(queue.itemsCount)
      ensures log == old(log) + ReleaseAll(SetupOrder) + [DrainQueue]
    {
      Give(ThreadHook);
      assert held == [Device, SymbolicLink, ImageHook, ProcessHook];
      Give(ProcessHook);
      assert held == [Device, SymbolicLink, ImageHook];
      Give(ImageHook);
      assert held == [Device, SymbolicLink];
      Give(SymbolicLink);
      assert held == [Device];
      Give(Device);
      assert log == old(log) + ReleaseAll(SetupOrder);
      ReplayStep(log, DrainQueue);
      log := log + [DrainQueue];
      queue.DrainAll();
    }
  }

  /** A log of acquisitions alone holds what it acquired, in order. */
  lemma {:induction false} ReplayAcquireAll(rs: seq<Resource>)
    ensures Replay(AcquireAll(rs)) == Some(rs)
  {
    if rs != [] {
      var init := rs[..|rs| - 1];
      assert rs == init + [rs[|rs| - 1]];
      AcquireAllAppend(init, rs[|rs| - 1]);
      ReplayAcquireAll(init);
      ReplayStep(AcquireAll(init), Acquire(rs[|rs| - 1]));
    }
  }

  lemma AcquireAllAppend(rs: seq<Resource>, r: Resource)
    ensures AcquireAll(rs + [r]) == AcquireAll(rs) + [Acquire(r)]
  {
  }
}
