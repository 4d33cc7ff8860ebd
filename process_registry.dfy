/** The process registry of EnumerateAllProcesses/main.cpp. Every watched
    executable name has a ProcessInfo entry with 30 PID slots (a free slot
    holds 0) and a count of the live PIDs. The process-notify routine adds
    a PID to the entry whose name contains the new process's name, creating
    the entry if there is none, and takes the PID out again on exit,
    dropping the whole entry once it is down to its last PID. A second list,
    `names`, holds the names a user asked to watch.

    Name matching is strstr's: one name contains the other. The lists are
    modelled as sequences; the pool allocation of a new entry or name is an
    outcome the caller supplies, and ExFreePool calls are recorded. */
module ProcessRegistry {
  import opened Slots

  /** SIZEOF(ProcessInfo::Pid) */
  const SlotCount: nat := 30

  /** strstr(hay, needle) != NULL: needle occurs in hay. */
  predicate Contains(hay: seq<char>, needle: seq<char>)
  {
    exists k :: 0 <= k <= |hay| && needle <= hay[k..]
  }

  /** The index of the first string containing sub, or -1 when there is
      none: what the `found` lambda and RetProcByName search for. */
  function FirstContaining(strs: seq<seq<char>>, sub: seq<char>): (i: int)
    ensures -1 <= i < |strs|
    ensures i == -1 <==> forall j :: 0 <= j < |strs| ==> !Contains(strs[j], sub)
    ensures i >= 0 ==> Contains(strs[i], sub) && forall j :: 0 <= j < i ==> !Contains(strs[j], sub)
  {
    if |strs| == 0 then -1
    else if Contains(strs[0], sub) then 0
    else
      var r := FirstContaining(strs[1..], sub);
      assert forall j :: 1 <= j < |strs| ==> strs[j] == strs[1..][j - 1];
      if r < 0 then -1 else r + 1
  }

  /** The number of live (non-zero) PID slots. */
  function Live(s: seq<int>): (n: nat)
    ensures n <= |s|
  {
    if s == [] then 0 else Live(s[..|s| - 1]) + (if s[|s| - 1] != 0 then 1 else 0)
  }

  /** No live PID occurs in two slots. */
  predicate LiveDistinct(s: seq<int>)
  {
    forall i, j :: 0 <= i < j < |s| && s[i] != 0 ==> s[i] != s[j]
  }

  /** Writing one slot changes the live count by what leaves and what
      arrives. */
  lemma {:induction false} LiveUpdate(s: seq<int>, i: int, v: int)
    requires 0 <= i < |s|
    ensures Live(s[i := v]) == Live(s) - (if s[i] != 0 then 1 else 0) + (if v != 0 then 1 else 0)
    decreases |s|
  {
    var t := s[i := v];
    var n := |s| - 1;
    assert t[..n] == if i < n then s[..n][i := v] else s[..n];
    if i < n {
      LiveUpdate(s[..n], i, v);
    }
  }

  /** Slots without a free one are all live; so a count below the slot
      count means there is a free slot. */
  lemma {:induction false} LiveFull(s: seq<int>)
    requires 0 !in s
    ensures Live(s) == |s|
    decreases |s|
  {
    if s != [] {
      var n := |s| - 1;
      assert 0 !in s[..n] by {
        forall k | 0 <= k < n
          ensures s[..n][k] != 0
        {
          assert s[..n][k] == s[k];
        }
      }
      LiveFull(s[..n]);
    }
  }

  /** Zeroed slots hold no live PID. */
  lemma {:induction false} LiveZeros(n: nat)
    ensures Live(Zeros(n)) == 0
  {
    if n > 0 {
      assert Zeros(n)[..n - 1] == Zeros(n - 1);
      LiveZeros(n - 1);
    }
  }

  /** ProcessInfo: a name and 30 PID slots with a count of live PIDs. */
  class ProcessInfo {
    const pids: array<int>
    const name: seq<char>
    var pidCount: int

    /** The count is the number of live slots, and no PID is held twice. */
    ghost predicate Valid()
      reads this, pids
    {
      pids.Length == SlotCount && pidCount == Live(pids[..]) && LiveDistinct(pids[..])
    }

    /** A zeroed entry whose first slot holds the new PID. */
    constructor (name: seq<char>, pid: int)
      requires pid != 0
      ensures Valid() && fresh(pids) && this.name == name
      ensures pids[..] == [pid] + Zeros(SlotCount - 1) && pidCount == 1
    {
      this.name := name;
      pids := new int[SlotCount](_ => 0);
      pidCount := 0;
      new;
      assert pids[..] == Zeros(SlotCount);
      LiveZeros(SlotCount);
      pids[0] := pid;
      pidCount := pidCount + 1;
      LiveUpdate(Zeros(SlotCount), 0, pid);
      assert pids[..] == Zeros(SlotCount)[0 := pid] == [pid] + Zeros(SlotCount - 1);
    }
  }

  /** FindPid(pid, process): whether any of the 30 slots holds pid. */
  method FindPid(pid: int, process: ProcessInfo) returns (b: bool)
    requires process.pids.Length == SlotCount
    ensures b == (pid in process.pids[..])
  {
    var i := 0;
    while i < SlotCount
      invariant 0 <= i <= SlotCount
      invariant pid !in process.pids[..i]
    {
      if process.pids[i] == pid {
        return true;
      }
      assert process.pids[..i + 1] == process.pids[..i] + [process.pids[i]];
      i := i + 1;
    }
    assert process.pids[..i] == process.pids[..];
    return false;
  }

  /** The slots after inserting pid: a PID not yet held goes into the
      first free slot, if the live count says there is room. */
  function Inserted(slots: seq<int>, count: int, pid: int): seq<int>
  {
    if pid !in slots && count < SlotCount && 0 in slots then slots[FirstIndex(slots, 0) := pid] else slots
  }

  /** The slots after removing pid: its first slot is freed. */
  function Removed(slots: seq<int>, pid: int): seq<int>
  {
    if pid in slots then slots[FirstIndex(slots, pid) := 0] else slots
  }

  /** The PID insertion of the process-notify routine: a PID not yet held
      goes into the first free slot, if the count says there is one. The
      entry stays well formed, and afterwards holds pid unless it is full. */
  method InsertPid(pid: int, proc: ProcessInfo)
    requires proc.Valid()
    modifies proc, proc.pids
    ensures proc.Valid()
    ensures proc.pids[..] == Inserted(old(proc.pids[..]), old(proc.pidCount), pid)
    ensures proc.pidCount == old(proc.pidCount) + (if pid !in old(proc.pids[..]) && old(proc.pidCount) < SlotCount then 1 else 0)
    ensures pid in proc.pids[..] || proc.pidCount == SlotCount
  {
    var held := FindPid(pid, proc);
    if !held && proc.pidCount < SlotCount {
      ghost var slots := proc.pids[..];
      if 0 !in slots {
        LiveFull(slots);
      }
      var i := 0;
      while proc.pids[i] != 0
        invariant 0 <= i < SlotCount && 0 !in slots[..i] && 0 in slots[i..]
        invariant proc.pids[..] == slots
        decreases SlotCount - i
      {
        assert slots[..i + 1] == slots[..i] + [slots[i]];
        assert slots[i..] == [slots[i]] + slots[i + 1..];
        i := i + 1;
      }
      assert FirstIndex(slots, 0) == i;
      proc.pids[i] := pid;
      proc.pidCount := proc.pidCount + 1;
      LiveUpdate(slots, i, pid);
      assert proc.pids[..] == slots[i := pid];
      assert proc.pids[i] == pid;
    }
  }

  /** RemovePid(pid, proc): for a non-null entry with live PIDs, free the
      first slot holding pid and count one PID fewer; true if it did. */
  method RemovePid(pid: int, proc: ProcessInfo?) returns (ok: bool)
    requires proc != null ==> proc.Valid()
    modifies if proc == null then {} else {proc, proc.pids}
    ensures proc == null ==> !ok
    ensures proc != null ==> (ok <==> old(proc.pidCount) > 0 && pid in old(proc.pids[..]))
    ensures proc != null && ok ==>
      proc.pids[..] == Removed(old(proc.pids[..]), pid) && proc.pidCount == old(proc.pidCount) - 1
    ensures proc != null && !ok ==> proc.pids[..] == old(proc.pids[..]) && proc.pidCount == old(proc.pidCount)
    ensures proc != null && pid != 0 ==> proc.Valid() && pid !in proc.pids[..]
  {
    if proc == null || proc.pidCount <= 0 {
      if proc != null && pid != 0 && pid in proc.pids[..] {
        LiveUpdate(proc.pids[..], FirstIndex(proc.pids[..], pid), 0);
      }
      return false;
    }
    ghost var slots := proc.pids[..];
    var i := 0;
    while i < SlotCount
      invariant 0 <= i <= SlotCount && pid !in slots[..i]
      invariant proc.pids[..] == slots
    {
      if proc.pids[i] == pid {
        assert FirstIndex(slots, pid) == i;
        proc.pids[i] := 0;
        proc.pidCount := proc.pidCount - 1;
        LiveUpdate(slots, i, 0);
        assert proc.pids[..] == slots[i := 0];
        if pid != 0 {
          forall k | 0 <= k < SlotCount && k != i
            ensures slots[k] != pid
          {
            if k < i {
              assert slots[..i][k] == slots[k];
            }
          }
        }
        return true;
      }
      assert slots[..i + 1] == slots[..i] + [slots[i]];
      i := i + 1;
    }
    assert slots[..i] == slots;
    return false;
  }

  /** The names of a list of entries. */
  function NamesOf(ps: seq<ProcessInfo>): (ns: seq<seq<char>>)
    ensures |ns| == |ps| && forall i :: 0 <= i < |ps| ==> ns[i] == ps[i].name
  {
    seq(|ps|, i requires 0 <= i < |ps| => ps[i].name)
  }

  /** Every name contains itself, so a name just added is found again. */
  lemma ContainsSelf(s: seq<char>)
    ensures Contains(s, s)
  {
    assert s <= s[0..];
  }

  /** The driver's globals: the watched names and the list of process
      entries. ExFreePool calls on names and entries are recorded. */
  class Registry {
    var names: seq<seq<char>>
    var allProcesses: seq<ProcessInfo>
    var releasedNames: seq<seq<char>>
    var releasedInfos: seq<ProcessInfo>

    ghost function Arrays(): set<array<int>>
      reads this
    {
      set p | p in allProcesses :: p.pids
    }

    /** Every entry is well formed, and no two entries share an object or a
        PID array, so updating one entry leaves the others alone. */
    ghost predicate Valid()
      reads this, allProcesses, Arrays()
    {
      && (forall i :: 0 <= i < |allProcesses| ==> allProcesses[i].Valid())
      && Disjoint(allProcesses)
    }

    constructor ()
      ensures Valid() && names == [] && allProcesses == [] && releasedNames == [] && releasedInfos == []
    {
      names, allProcesses, releasedNames, releasedInfos := [], [], [], [];
    }

    /** The `found` lambda: the first string containing sub, or -1. */
    static method Found(strs: seq<seq<char>>, sub: seq<char>) returns (index: int)
      ensures index == FirstContaining(strs, sub)
    {
      var i := 0;
      while i < |strs|
        invariant 0 <= i <= |strs|
        invariant forall j :: 0 <= j < i ==> !Contains(strs[j], sub)
      {
        if Contains(strs[i], sub) {
          return i;
        }
        i := i + 1;
      }
      return -1;
    }

    /** RetProcByName(name, allProcesses, index): the first entry whose name
        contains name, with its index, or null. */
    method RetProcByName(name: seq<char>) returns (proc: ProcessInfo?, index: int)
      ensures index == FirstContaining(NamesOf(allProcesses), name)
      ensures index < 0 ==> proc == null
      ensures index >= 0 ==> proc == allProcesses[index]
    {
      var i := 0;
      while i < |allProcesses|
        invariant 0 <= i <= |allProcesses|
        invariant forall j :: 0 <= j < i ==> !Contains(allProcesses[j].name, name)
      {
        if Contains(allProcesses[i].name, name) {
          return allProcesses[i], i;
        }
        i := i + 1;
      }
      return null, -1;
    }

    /** IO_ADD_PROCESS: a name no listed name contains is copied into a new
        pool string and appended, if the allocation succeeds; the request
        then succeeds, even when the allocation failed. A name already
        covered fails the request. */
    method AddName(name: seq<char>, allocOk: bool) returns (ok: bool)
      modifies this
      ensures allProcesses == old(allProcesses) && releasedNames == old(releasedNames) && releasedInfos == old(releasedInfos)
      ensures ok <==> forall j :: 0 <= j < |old(names)| ==> !Contains(old(names)[j], name)
      ensures names == if ok && allocOk then old(names) + [name] else old(names)
      ensures allocOk ==> exists j :: 0 <= j < |names| && Contains(names[j], name)
    {
      var index := Found(names, name);
      if index < 0 {
        if allocOk {
          names := names + [name];
          ContainsSelf(name);
          assert Contains(names[|names| - 1], name);
        }
        return true;
      }
      return false;
    }

    /** IO_REMOVE_PROCESS: free the first listed name containing name and
        swap-remove it from the list. */
    method RemoveName(name: seq<char>) returns (ok: bool)
      modifies this
      ensures allProcesses == old(allProcesses) && releasedInfos == old(releasedInfos)
      ensures ok <==> exists j :: 0 <= j < |old(names)| && Contains(old(names)[j], name)
      ensures !ok ==> names == old(names) && releasedNames == old(releasedNames)
      ensures ok ==>
        var i := FirstContaining(old(names), name);
        && names == SwapRemove(old(names), i)
        && releasedNames == old(releasedNames) + [old(names)[i]]
        && multiset(names) == multiset(old(names)) - multiset{old(names)[i]}
    {
      var index := Found(names, name);
      if index >= 0 {
        releasedNames := releasedNames + [names[index]];
        SwapRemoveMultiset(names, index);
        names := SwapRemove(names, index);
        return true;
      }
      return false;
    }
  
    /** The notify routine for a process being created. The entry whose
        name contains the new process's name gets the PID (see InsertPid);
        with no such entry, a new zeroed entry with that name and the PID
        in its first slot is appended, if the pool allocation succeeds. The
        name is the EPROCESS image name, at most 14 characters and a NUL, so
        copying the 15-byte Name field keeps all of it. */
    method OnProcessCreate(pid: int, name: seq<char>, allocOk: bool)
      requires Valid() && pid != 0 && |name| < NameLength
      modifies this, allProcesses, Arrays()
      ensures Valid()
      ensures names == old(names) && releasedNames == old(releasedNames) && releasedInfos == old(releasedInfos)
      ensures var i := FirstContaining(NamesOf(old(allProcesses)), name);
        && (i >= 0 ==>
              && allProcesses == old(allProcesses)
              && allProcesses[i].pids[..] == Inserted(old(allProcesses[i].pids[..]), old(allProcesses[i].pidCount), pid)
              && allProcesses[i].pidCount == old(allProcesses[i].pidCount)
                   + (if pid !in old(allProcesses[i].pids[..]) && old(allProcesses[i].pidCount) < SlotCount then 1 else 0))
        && (i < 0 && allocOk ==>
              && |allProcesses| == |old(allProcesses)| + 1
              && allProcesses[..|old(allProcesses)|] == old(allProcesses)
              && fresh(allProcesses[|old(allProcesses)|])
              && allProcesses[|old(allProcesses)|].name == name
              && allProcesses[|old(allProcesses)|].pids[..] == [pid] + Zeros(SlotCount - 1)
              && allProcesses[|old(allProcesses)|].pidCount == 1)
        && (i < 0 && !allocOk ==> allProcesses == old(allProcesses))
        && forall p :: p in old(allProcesses) && (i < 0 || p != old(allProcesses)[i]) ==>
             p.pidCount == old(p.pidCount) && p.pids[..] == old(p.pids[..])
      ensures allocOk ==> exists j :: 0 <= j < |allProcesses| && Contains(allProcesses[j].name, name)
                            && (pid in allProcesses[j].pids[..] || allProcesses[j].pidCount == SlotCount)
    {
      var proc, index := RetProcByName(name);
      if proc != null {
        InsertPidAt(index, pid);
      } else if allocOk {
        var p := new ProcessInfo(name, pid);
        allProcesses := allProcesses + [p];
        ContainsSelf(name);
        assert allProcesses[|allProcesses| - 1] == p;
      }
    }

    /** The notify routine for a process exiting. The entry whose name
        contains the process's name loses the PID when it holds more than
        one; otherwise the whole entry is freed and swap-removed, whatever
        PID it held. */
    method OnProcessExit(pid: int, name: seq<char>)
      requires Valid() && pid != 0
      modifies this, allProcesses, Arrays()
      ensures Valid()
      ensures names == old(names) && releasedNames == old(releasedNames)
      ensures var i := FirstContaining(NamesOf(old(allProcesses)), name);
        && (i < 0 ==> allProcesses == old(allProcesses) && releasedInfos == old(releasedInfos))
        && (i >= 0 && old(allProcesses[i].pidCount) > 1 ==>
              && allProcesses == old(allProcesses) && releasedInfos == old(releasedInfos)
              && allProcesses[i].pids[..] == Removed(old(allProcesses[i].pids[..]), pid)
              && allProcesses[i].pidCount == old(allProcesses[i].pidCount) - (if pid in old(allProcesses[i].pids[..]) then 1 else 0)
              && pid !in allProcesses[i].pids[..])
        && (i >= 0 && old(allProcesses[i].pidCount) <= 1 ==>
              && allProcesses == SwapRemove(old(allProcesses), i)
              && releasedInfos == old(releasedInfos) + [old(allProcesses)[i]]
              && old(allProcesses)[i] !in allProcesses)
        && forall p :: p in old(allProcesses) && (i < 0 || p != old(allProcesses)[i]) ==>
             p.pidCount == old(p.pidCount) && p.pids[..] == old(p.pids[..])
    {
      var proc, index := RetProcByName(name);
      if proc != null {
        if proc.pidCount > 1 {
          RemovePidAt(index, pid);
        } else {
          DropEntry(index);
        }
      }
    }

    /** InsertPid on the entry at index; the other entries keep their PIDs. */
    method InsertPidAt(index: int, pid: int)
      requires Valid() && 0 <= index < |allProcesses|
      modifies allProcesses[index], allProcesses[index].pids
      ensures Valid()
      ensures allProcesses[index].pids[..] == Inserted(old(allProcesses[index].pids[..]), old(allProcesses[index].pidCount), pid)
      ensures allProcesses[index].pidCount == old(allProcesses[index].pidCount)
        + (if pid !in old(allProcesses[index].pids[..]) && old(allProcesses[index].pidCount) < SlotCount then 1 else 0)
      ensures pid in allProcesses[index].pids[..] || allProcesses[index].pidCount == SlotCount
      ensures forall p :: p in allProcesses && p != allProcesses[index] ==>
        p.pidCount == old(p.pidCount) && p.pids[..] == old(p.pids[..])
    {
      var proc := allProcesses[index];
      Apart(index);
      InsertPid(pid, proc);
    }

    /** RemovePid on the entry at index, which holds more than one PID; the
        other entries keep their PIDs. */
    method RemovePidAt(index: int, pid: int)
      requires Valid() && 0 <= index < |allProcesses| && allProcesses[index].pidCount > 1 && pid != 0
      modifies allProcesses[index], allProcesses[index].pids
      ensures Valid()
      ensures allProcesses[index].pids[..] == Removed(old(allProcesses[index].pids[..]), pid)
      ensures allProcesses[index].pidCount == old(allProcesses[index].pidCount) - (if pid in old(allProcesses[index].pids[..]) then 1 else 0)
      ensures pid !in allProcesses[index].pids[..]
      ensures forall p :: p in allProcesses && p != allProcesses[index] ==>
        p.pidCount == old(p.pidCount) && p.pids[..] == old(p.pids[..])
    {
      var proc := allProcesses[index];
      Apart(index);
      var removed := RemovePid(pid, proc);
    }

    /** The other entries share neither the object nor the PID array of
        the entry at index. */
    lemma Apart(index: int)
      requires Valid() && 0 <= index < |allProcesses|
      ensures forall p :: p in allProcesses && p != allProcesses[index] ==>
        p.pids != allProcesses[index].pids
    {
      forall p | p in allProcesses && p != allProcesses[index]
        ensures p.pids != allProcesses[index].pids
      {
        var k :| 0 <= k < |allProcesses| && allProcesses[k] == p;
      }
    }

    /** Free the entry at index and swap-remove it from the list. */
    method DropEntry(index: int)
      requires Valid() && 0 <= index < |allProcesses|
      modifies this
      ensures Valid() && names == old(names) && releasedNames == old(releasedNames)
      ensures allProcesses == SwapRemove(old(allProcesses), index)
      ensures releasedInfos == old(releasedInfos) + [old(allProcesses)[index]]
      ensures old(allProcesses)[index] !in allProcesses
      ensures forall p :: p in old(allProcesses) && p != old(allProcesses)[index] <==> p in allProcesses
    {
      ghost var before := allProcesses;
      releasedInfos := releasedInfos + [allProcesses[index]];
      SwapRemoveDisjoint(allProcesses, index);
      allProcesses := SwapRemove(allProcesses, index);
      forall p | p in before && p != before[index]
        ensures p in allProcesses
      {
        var k :| 0 <= k < |before| && before[k] == p;
        if k == |before| - 1 {
          assert allProcesses[index] == p;
        } else {
          assert allProcesses[k] == p;
        }
      }
    }

    /** IO_HIDE_PROCESS, with the entry moved into a freed slot examined
        before the scan moves on: every entry whose name contains name is
        freed and taken out of the list, and the others stay. */
    method HideProcess(name: seq<char>)
      requires Valid()
      modifies this
      ensures Valid()
      ensures names == old(names) && releasedNames == old(releasedNames)
      ensures forall p :: p in allProcesses <==> p in old(allProcesses) && !Contains(p.name, name)
      ensures |old(releasedInfos)| <= |releasedInfos| && releasedInfos[..|old(releasedInfos)|] == old(releasedInfos)
      ensures forall p :: p in releasedInfos[|old(releasedInfos)|..] <==> p in old(allProcesses) && Contains(p.name, name)
    {
      var i := 0;
      while i < |allProcesses|
        invariant 0 <= i <= |allProcesses| && |old(releasedInfos)| <= |releasedInfos|
        invariant releasedInfos[..|old(releasedInfos)|] == old(releasedInfos)
        invariant Valid() && names == old(names) && releasedNames == old(releasedNames)
        invariant forall j :: 0 <= j < i ==> !Contains(allProcesses[j].name, name)
        invariant forall p :: p in allProcesses ==> p in old(allProcesses)
        invariant forall p :: p in old(allProcesses) && !Contains(p.name, name) ==> p in allProcesses
        invariant forall p :: p in releasedInfos[|old(releasedInfos)|..] <==> p in old(allProcesses) && p !in allProcesses
        decreases |allProcesses| - i
      {
        if Contains(allProcesses[i].name, name) {
          ghost var dropped, victim := releasedInfos[|old(releasedInfos)|..], allProcesses[i];
          DropEntry(i);
          assert releasedInfos[|old(releasedInfos)|..] == dropped + [victim];
        } else {
          i := i + 1;
        }
      }
    }
  }

  /** No two entries share an object or a PID array. */
  predicate Disjoint(ps: seq<ProcessInfo>)
  {
    forall i, j :: 0 <= i < j < |ps| ==> ps[i] != ps[j] && ps[i].pids != ps[j].pids
  }

  /** Swap-removing an entry keeps the entries disjoint and takes that entry
      out of the list. */
  lemma SwapRemoveDisjoint(ps: seq<ProcessInfo>, i: int)
    requires 0 <= i < |ps| && Disjoint(ps)
    ensures Disjoint(SwapRemove(ps, i)) && ps[i] !in SwapRemove(ps, i)
    ensures forall p :: p in SwapRemove(ps, i) ==> p in ps
  {
    var r := SwapRemove(ps, i);
    forall a, b | 0 <= a < b < |r|
      ensures r[a] != r[b] && r[a].pids != r[b].pids
    {
      var a' := if a == i then |ps| - 1 else a;
      var b' := if b == i then |ps| - 1 else b;
      assert r[a] == ps[a'] && r[b] == ps[b'] && a' != b';
    }
    forall k | 0 <= k < |r|
      ensures r[k] != ps[i] && r[k] in ps
    {
      var k' := if k == i then |ps| - 1 else k;
      assert r[k] == ps[k'] && k' != i;
    }
  }

  /** The scan of IO_HIDE_PROCESS as written, on the entries' names: after
      swap-removing the entry at i it moves on to i + 1, so the entry just
      moved into slot i is never examined. */
  function HideScanAsWritten(s: seq<seq<char>>, sub: seq<char>, i: nat): (r: seq<seq<char>>)
    ensures |r| <= |s| && forall x :: x in r ==> x in s
    decreases |s| - i
  {
    if i >= |s| then s
    else if Contains(s[i], sub) then
      var t := SwapRemove(s, i);
      assert forall x :: x in t ==> x in s;
      HideScanAsWritten(t, sub, i + 1)
    else HideScanAsWritten(s, sub, i + 1)
  }

  /** Hiding "pad" with entries "pad.exe" then "notepad.exe" leaves
      "notepad.exe" in the list although its name contains "pad". */
  lemma HideScanSkipsMovedEntry()
    ensures var r := HideScanAsWritten(["pad.exe", "notepad.exe"], "pad", 0);
      r == ["notepad.exe"] && Contains(r[0], "pad")
  {
    assert "pad" <= "pad.exe"[0..];
    assert "pad" <= "notepad.exe"[4..];
    var s: seq<seq<char>> := ["pad.exe", "notepad.exe"];
    assert SwapRemove(s, 0) == ["notepad.exe"];
  }

  /** sizeof(ProcessInfo): 30 four-byte PIDs, a 15-byte name and the count
      byte. */
  const InfoSize: nat := 4 * 30 + 15 + 1

  /** SIZEOF(ProcessInfo::Name) */
  const NameLength: nat := 15

  /** The bytes IO_ACTIVE_PROCESSES reports: as many whole entries as the
      caller's buffer holds, and no more than there are. */
  function ReportedBytes(inputLength: nat, entries: nat): (bytes: nat)
    ensures bytes <= inputLength && bytes <= entries * InfoSize && bytes % InfoSize == 0
    ensures bytes == entries * InfoSize || inputLength - bytes < InfoSize
  {
    var n := if inputLength / InfoSize > entries then entries else inputLength / InfoSize;
    n * InfoSize
  }

  /** The live PIDs, in slot order. */
  function NonZero(s: seq<int>): (r: seq<int>)
    ensures |r| == Live(s) && forall x :: x in r <==> x != 0 && x in s
  {
    if s == [] then []
    else
      var n := |s| - 1;
      assert s == s[..n] + [s[n]];
      NonZero(s[..n]) + (if s[n] != 0 then [s[n]] else [])
  }

  /** The copy of one entry into the caller's buffer by IO_ACTIVE_PROCESSES:
      the name, the count, and the live PIDs packed to the front of the
      buffer's slots; the slots past them keep what the buffer held. */
  method CopyOut(src: ProcessInfo, dst: array<int>) returns (name: seq<char>, pidCount: int)
    requires src.Valid() && dst.Length == SlotCount && dst != src.pids
    modifies dst
    ensures name == src.name && pidCount == src.pidCount
    ensures dst[..pidCount] == NonZero(src.pids[..]) && dst[pidCount..] == old(dst[pidCount..])
  {
    var index := 0;
    var j := 0;
    while j < SlotCount
      invariant 0 <= j <= SlotCount && index == Live(src.pids[..j]) <= j
      invariant dst[..index] == NonZero(src.pids[..j])
      invariant dst[index..] == old(dst[index..])
    {
      assert src.pids[..j + 1][..j] == src.pids[..j];
      if src.pids[j] != 0 {
        dst[index] := src.pids[j];
        index := index + 1;
      }
      j := j + 1;
    }
    assert src.pids[..j] == src.pids[..];
    return src.name, src.pidCount;
  }
}
