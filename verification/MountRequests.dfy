/**
 The four requests of the node side said in terms of the mounts and the directories themselves,
 whichever of their calls fail: when each is refused, and what exactly it changes.
 */
module MountRequests {
  import opened Wrappers
  import opened NodeMounts

  /** The path exists and is a directory. */
  predicate IsThere(n: Node, path: string) {
    path != "" && path in n.paths && n.paths[path]
  }

  /** Where the mounts of a device stand in the table. */
  function MountedAt(mounts: seq<Mount>, device: string): set<int> {
    set i | 0 <= i < |mounts| && mounts[i].device == device
  }

  /** The first mount on the path, and the last one. */
  ghost predicate IsFirstOn(mounts: seq<Mount>, path: string, k: int) {
    0 <= k < |mounts| && mounts[k].path == path && forall j | 0 <= j < k :: mounts[j].path != path
  }

  ghost predicate IsLastOn(mounts: seq<Mount>, path: string, k: int) {
    0 <= k < |mounts| && mounts[k].path == path && forall j | k < j < |mounts| :: mounts[j].path != path
  }

  /** The first mount of the device on the path. */
  ghost predicate IsFirstOf(mounts: seq<Mount>, device: string, path: string, k: int) {
    && 0 <= k < |mounts| && mounts[k].device == device && mounts[k].path == path
    && forall j | 0 <= j < k :: !(mounts[j].device == device && mounts[j].path == path)
  }

  ghost predicate SomethingOn(mounts: seq<Mount>, path: string) {
    exists m | m in mounts :: m.path == path
  }

  ghost predicate SomeOf(mounts: seq<Mount>, device: string) {
    exists m | m in mounts :: m.device == device
  }

  ghost predicate SomeOfOn(mounts: seq<Mount>, device: string, path: string) {
    exists m | m in mounts :: m.device == device && m.path == path
  }

  // ---------- what the table functions compute ----------

  lemma {:induction false} FirstAtIsFirst(mounts: seq<Mount>, path: string)
    ensures FirstAt(mounts, path).Some? <==> SomethingOn(mounts, path)
    ensures FirstAt(mounts, path).Some? ==>
              exists k | IsFirstOn(mounts, path, k) :: mounts[k] == FirstAt(mounts, path).value
  {
    if mounts != [] {
      var rest := mounts[1..];
      FirstAtIsFirst(rest, path);
      if mounts[0].path == path {
        assert IsFirstOn(mounts, path, 0);
      } else if FirstAt(mounts, path).Some? {
        var k :| IsFirstOn(rest, path, k) && rest[k] == FirstAt(rest, path).value;
        forall j | 0 <= j < k + 1 ensures mounts[j].path != path { if j > 0 { assert rest[j - 1] == mounts[j]; } }
        assert IsFirstOn(mounts, path, k + 1);
      }
    }
  }

  lemma OneFirstOn(mounts: seq<Mount>, path: string, j: int, k: int)
    requires IsFirstOn(mounts, path, j) && IsFirstOn(mounts, path, k)
    ensures j == k
  {
  }

  lemma MountsOfCounts(mounts: seq<Mount>, device: string)
    ensures |MountsOf(mounts, device)| == |MountedAt(mounts, device)|
    ensures MountsOf(mounts, device) == [] <==> !SomeOf(mounts, device)
  {
    MountsOfLength(mounts, device);
    MountsOfFacts(mounts, device);
    hide MountsOf, MountedAt;
    var mine := MountsOf(mounts, device);
    if m :| m in mounts && m.device == device { assert m in mine; }
    if mine != [] { assert mine[0] in mine; }
  }

  lemma {:induction false} MountsOfLength(mounts: seq<Mount>, device: string)
    ensures |MountsOf(mounts, device)| == |MountedAt(mounts, device)|
  {
    if mounts != [] {
      var n := |mounts| - 1;
      assert mounts == mounts[..n] + [mounts[n]];
      hide MountedAt, MountsOf;
      MountsOfLength(mounts[..n], device);
      MountsOfAppend(mounts[..n], mounts[n], device);
      OneMoreMounted(mounts[..n], mounts[n], device);
    }
  }

  lemma OneMoreMounted(mounts: seq<Mount>, m: Mount, device: string)
    ensures |MountedAt(mounts + [m], device)| == |MountedAt(mounts, device)| + if m.device == device then 1 else 0
  {
    assert MountedAt(mounts + [m], device) == MountedAt(mounts, device) + if m.device == device then {|mounts|} else {};
  }

  lemma {:induction false} FirstOfDevice(mounts: seq<Mount>, device: string, path: string)
    ensures var r := FirstAt(MountsOf(mounts, device), path);
            && (r.Some? <==> SomeOfOn(mounts, device, path))
            && (r.Some? ==> exists k | IsFirstOf(mounts, device, path, k) :: mounts[k] == r.value)
  {
    if mounts != [] {
      var rest := mounts[1..];
      FirstOfDevice(rest, device, path);
      var r := FirstAt(MountsOf(mounts, device), path);
      if mounts[0].device == device {
        assert MountsOf(mounts, device)[1..] == MountsOf(rest, device) && MountsOf(mounts, device)[0] == mounts[0];
      } else {
        assert MountsOf(mounts, device) == MountsOf(rest, device);
      }
      hide MountsOf;
      if mounts[0].device == device && mounts[0].path == path {
        assert IsFirstOf(mounts, device, path, 0);
      } else if r.Some? {
        hide FirstAt;
        var k :| IsFirstOf(rest, device, path, k) && rest[k] == r.value;
        forall j | 0 <= j < k + 1 ensures !(mounts[j].device == device && mounts[j].path == path) {
          if j > 0 { assert rest[j - 1] == mounts[j]; }
        }
        assert IsFirstOf(mounts, device, path, k + 1);
      }
    }
  }

  lemma FirstDecides(mounts: seq<Mount>, device: string, path: string, ro: bool)
    ensures var there := FirstAt(MountsOf(mounts, device), path);
            && (there.Some? <==> SomeOfOn(mounts, device, path))
            && (there.Some? && there.value.ro == ro <==>
                exists k | IsFirstOf(mounts, device, path, k) :: mounts[k].ro == ro)
  {
    FirstOfDevice(mounts, device, path);
    hide MountsOf, FirstAt;
    if k :| IsFirstOf(mounts, device, path, k) {
      assert mounts[k] in mounts;
      var j :| IsFirstOf(mounts, device, path, j) && mounts[j] == FirstAt(MountsOf(mounts, device), path).value;
      assert j == k;
    }
  }

  /** One mount, the last on the path, is taken out and the others stay in place. */
  ghost predicate TakesOff(mounts: seq<Mount>, path: string, mounts': seq<Mount>) {
    exists k | IsLastOn(mounts, path, k) :: mounts' == mounts[..k] + mounts[k + 1..]
  }

  /** Unmounting takes the last mount on the path out, if there is one. */
  lemma {:induction false} UnmountedIsLast(mounts: seq<Mount>, path: string)
    ensures if SomethingOn(mounts, path) then TakesOff(mounts, path, Unmounted(mounts, path))
            else Unmounted(mounts, path) == mounts
  {
    if mounts != [] {
      var n := |mounts| - 1;
      var others, last := mounts[..n], mounts[n];
      assert mounts == others + [last];
      hide TakesOff;
      UnmountedIsLast(others, path);
      if last.path == path {
        LastTakenOff(others, last);
      } else {
        hide Unmounted;
        assert SomethingOn(mounts, path) <==> SomethingOn(others, path);
        if SomethingOn(others, path) { TakenOffBefore(others, path, Unmounted(others, path), last); }
      }
    }
  }

  lemma LastTakenOff(others: seq<Mount>, last: Mount)
    ensures SomethingOn(others + [last], last.path) && TakesOff(others + [last], last.path, others)
  {
    var mounts, n := others + [last], |others|;
    assert mounts[n] in mounts;
    assert IsLastOn(mounts, last.path, n) && mounts[..n] + mounts[n + 1..] == others;
  }

  lemma TakenOffBefore(others: seq<Mount>, path: string, left: seq<Mount>, last: Mount)
    requires TakesOff(others, path, left) && last.path != path
    ensures TakesOff(others + [last], path, left + [last])
  {
    var k :| IsLastOn(others, path, k) && left == others[..k] + others[k + 1..];
    var mounts := others + [last];
    assert IsLastOn(mounts, path, k);
    assert mounts[..k] == others[..k] && mounts[k + 1..] == others[k + 1..] + [last];
  }

  // ---------- the requests ----------

  /** The request gets as far as the mount table. */
  predicate StageReachesTable(n: Node, r: Request, f: Faults)
    requires r.Stage?
  {
    r.device.Some? && !f.device && IsThere(n, r.target) && r.mountable && !f.mounts
  }

  /**
   A stage of a device without mounts adds one, unless mounting fails; of a mounted device it changes
   nothing and succeeds exactly when the device's first mount on the target has the requested mode.
   */
  lemma StageExactly(n: Node, r: Request, f: Faults)
    requires r.Stage?
    ensures var (n', reply) := AfterStage(n, r, f);
            if !StageReachesTable(n, r, f) then n' == n && reply == Refused
            else if !SomeOf(n.mounts, r.device.value) then
              if f.mount then n' == n && reply == Refused
              else n' == n.(mounts := n.mounts + [Mount(r.device.value, r.target, r.ro)]) && reply == Done
            else
              n' == n && (reply == Done <==> exists k | IsFirstOf(n.mounts, r.device.value, r.target, k) ::
                                               n.mounts[k].ro == r.ro)
  {
    if StageReachesTable(n, r, f) {
      MountsOfCounts(n.mounts, r.device.value);
      FirstDecides(n.mounts, r.device.value, r.target, r.ro);
      hide MountsOf, FirstAt, MountedAt, SomeOf, IsFirstOf;
    }
  }

  /** Without faults: when a stage succeeds; a refusal changes nothing. */
  lemma StageExact(n: Node, r: Request)
    requires r.Stage?
    ensures var (n', reply) := AfterStage(n, r, NO_FAULTS);
            && (reply == Refused ==> n' == n)
            && (reply == Done <==>
                  && r.device.Some? && r.mountable && IsThere(n, r.target)
                  && ((forall m | m in n.mounts :: m.device != r.device.value) ||
                      exists k | IsFirstOf(n.mounts, r.device.value, r.target, k) :: n.mounts[k].ro == r.ro))
  {
    StageExactly(n, r, NO_FAULTS);
    if k :| r.device.Some? && IsFirstOf(n.mounts, r.device.value, r.target, k) {
      assert n.mounts[k] in n.mounts;
    }
  }

  /** Something is mounted on the target, and it is the only mount of its device. */
  ghost predicate OnlyMountOn(mounts: seq<Mount>, target: string) {
    exists k | IsFirstOn(mounts, target, k) :: |MountedAt(mounts, mounts[k].device)| == 1
  }

  /** An unstage takes the mount off its target exactly when that is the only one of its device. */
  lemma UnstageExactly(n: Node, r: Request, f: Faults)
    requires r.Unstage?
    ensures var (n', reply) := AfterUnstage(n, r, f);
            if !IsThere(n, r.target) || f.mounts then n' == n && reply == Refused
            else if !SomethingOn(n.mounts, r.target) then n' == n && reply == Done
            else if f.device || f.unmount || !OnlyMountOn(n.mounts, r.target) then n' == n && reply == Refused
            else TakesOff(n.mounts, r.target, n'.mounts) && n'.paths == n.paths && reply == Done
  {
    FirstAtIsFirst(n.mounts, r.target);
    UnmountedIsLast(n.mounts, r.target);
    if SomethingOn(n.mounts, r.target) {
      OnlyMountMeans(n.mounts, r.target);
    }
    hide FirstAt, Unmounted, MountsOf, MountedAt, IsFirstOn, IsLastOn, OnlyMountOn, TakesOff, SomethingOn;
  }

  lemma OnlyMountMeans(mounts: seq<Mount>, target: string)
    requires FirstAt(mounts, target).Some?
    ensures OnlyMountOn(mounts, target) <==> |MountsOf(mounts, FirstAt(mounts, target).value.device)| <= 1
  {
    FirstAtIsFirst(mounts, target);
    var k :| IsFirstOn(mounts, target, k) && mounts[k] == FirstAt(mounts, target).value;
    MountsOfCounts(mounts, mounts[k].device);
    assert mounts[k] in mounts;
    hide FirstAt, MountsOf, MountedAt;
    if j :| IsFirstOn(mounts, target, j) && |MountedAt(mounts, mounts[j].device)| == 1 {
      OneFirstOn(mounts, target, j, k);
    }
  }

  /** The target directory can be had: it exists, or can be made. */
  predicate CanHaveTarget(n: Node, r: Request, f: Faults)
    requires r.Publish?
  {
    r.device.Some? && r.target != "" && if r.target in n.paths then n.paths[r.target] else !f.mkdir
  }

  /** The request gets as far as the mount table; a target may be its own staging directory. */
  predicate PublishReachesTable(n: Node, r: Request, f: Faults)
    requires r.Publish?
  {
    CanHaveTarget(n, r, f) && (IsThere(n, r.staging) || r.staging == r.target) && r.mountable && !f.device && !f.mounts
  }

  /** The device mounted first on the path, or the host's own file system. */
  ghost predicate IsBelow(mounts: seq<Mount>, path: string, device: string) {
    if SomethingOn(mounts, path) then exists k | IsFirstOn(mounts, path, k) :: device == mounts[k].device
    else device == ""
  }

  /**
   A publish makes the target directory first, and keeps it whatever follows.  A device that is
   mounted nowhere is refused; one mounted at two places or more, one of them the target, succeeds
   exactly when its first mount there has the requested mode; any other gets one more mount on the
   target, of what is mounted on the staging path, unless mounting fails.
   */
  lemma PublishExactly(n: Node, r: Request, f: Faults)
    requires r.Publish?
    ensures var (n', reply) := AfterPublish(n, r, f);
            if !CanHaveTarget(n, r, f) then n' == n && reply == Refused
            else
              && n'.paths == n.paths[r.target := true]
              && if !PublishReachesTable(n, r, f) || !SomeOf(n.mounts, r.device.value) then
                   n'.mounts == n.mounts && reply == Refused
                 else if |MountedAt(n.mounts, r.device.value)| > 1 && SomeOfOn(n.mounts, r.device.value, r.target) then
                   n'.mounts == n.mounts &&
                   (reply == Done <==>
                      exists k | IsFirstOf(n.mounts, r.device.value, r.target, k) :: n.mounts[k].ro == r.ro)
                 else if f.mount then n'.mounts == n.mounts && reply == Refused
                 else
                   reply == Done && exists device | IsBelow(n.mounts, r.staging, device) ::
                     n'.mounts == n.mounts + [Mount(device, r.target, r.ro)]
  {
    hide MountsOf, FirstAt, MountedAt, SomeOf, SomeOfOn, IsBelow, IsFirstOf;
    if PublishReachesTable(n, r, f) { PublishAtTable(n, r, f); }
  }

  lemma PublishAtTable(n: Node, r: Request, f: Faults)
    requires r.Publish? && PublishReachesTable(n, r, f)
    ensures var (n', reply) := AfterPublish(n, r, f);
            && n'.paths == n.paths[r.target := true]
            && if !SomeOf(n.mounts, r.device.value) then n'.mounts == n.mounts && reply == Refused
               else if |MountedAt(n.mounts, r.device.value)| > 1 && SomeOfOn(n.mounts, r.device.value, r.target) then
                 n'.mounts == n.mounts &&
                 (reply == Done <==>
                    exists k | IsFirstOf(n.mounts, r.device.value, r.target, k) :: n.mounts[k].ro == r.ro)
               else if f.mount then n'.mounts == n.mounts && reply == Refused
               else
                 reply == Done && exists device | IsBelow(n.mounts, r.staging, device) ::
                   n'.mounts == n.mounts + [Mount(device, r.target, r.ro)]
  {
    MountsOfCounts(n.mounts, r.device.value);
    FirstDecides(n.mounts, r.device.value, r.target, r.ro);
    BelowExactly(n.mounts, r.staging);
    hide MountsOf, FirstAt, MountedAt, SomeOf, SomeOfOn, IsBelow, IsFirstOf;
  }

  lemma BelowExactly(mounts: seq<Mount>, path: string)
    ensures var below := FirstAt(mounts, path);
            IsBelow(mounts, path, if below.Some? then below.value.device else HOST)
  {
    FirstAtIsFirst(mounts, path);
  }

  /** Something is mounted on the path, and only once. */
  ghost predicate OneOn(mounts: seq<Mount>, path: string) {
    exists k :: IsFirstOn(mounts, path, k) && IsLastOn(mounts, path, k)
  }

  /**
   An unpublish of a path that does not exist, or on which nothing is mounted, succeeds and changes
   nothing.  Else it takes one mount off, unless that fails, and then removes the directory, which
   fails when another mount is left.
   */
  lemma UnpublishExactly(n: Node, r: Request, f: Faults)
    requires r.Unpublish?
    ensures var (n', reply) := AfterUnpublish(n, r, f);
            if r.target !in n.paths then n' == n && reply == Done
            else if f.mounts then n' == n && reply == Refused
            else if !SomethingOn(n.mounts, r.target) then n' == n && reply == Done
            else if f.device || f.unmount then n' == n && reply == Refused
            else
              && TakesOff(n.mounts, r.target, n'.mounts)
              && if f.rmdir || !OneOn(n.mounts, r.target) then n'.paths == n.paths && reply == Refused
                 else n'.paths == n.paths - {r.target} && reply == Done
  {
    FirstAtIsFirst(n.mounts, r.target);
    UnmountedIsLast(n.mounts, r.target);
    if SomethingOn(n.mounts, r.target) {
      OneIsLeftOut(n.mounts, r.target);
      hide FirstAt, Unmounted, OneOn, TakesOff;
    }
  }

  lemma OneIsLeftOut(mounts: seq<Mount>, path: string)
    requires SomethingOn(mounts, path)
    ensures TakesOff(mounts, path, Unmounted(mounts, path))
    ensures OneOn(mounts, path) <==> FirstAt(Unmounted(mounts, path), path).None?
  {
    UnmountedIsLast(mounts, path);
    FirstAtIsFirst(Unmounted(mounts, path), path);
    hide FirstAt, OneOn, SomethingOn, Unmounted;
    var k :| IsLastOn(mounts, path, k) && Unmounted(mounts, path) == mounts[..k] + mounts[k + 1..];
    OthersLeft(mounts, path, k);
  }

  lemma OthersLeft(mounts: seq<Mount>, path: string, k: int)
    requires IsLastOn(mounts, path, k)
    ensures SomethingOn(mounts[..k] + mounts[k + 1..], path) <==> !OneOn(mounts, path)
  {
    var left := mounts[..k] + mounts[k + 1..];
    if IsFirstOn(mounts, path, k) {
      assert OneOn(mounts, path);
      forall m | m in left ensures m.path != path {
        assert m in mounts[..k] || m in mounts[k + 1..];
      }
    } else {
      var j :| 0 <= j < k && mounts[j].path == path;
      assert left[j] == mounts[j] && left[j] in left;
      forall i | IsLastOn(mounts, path, i) ensures !IsFirstOn(mounts, path, i) { OneLastOn(mounts, path, i, k); }
    }
  }

  lemma OneLastOn(mounts: seq<Mount>, path: string, j: int, k: int)
    requires IsLastOn(mounts, path, j) && IsLastOn(mounts, path, k)
    ensures j == k
  {
  }
}
