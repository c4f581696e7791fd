/**
 The node side of a volume's life: stage, publish, unpublish and unstage over the mount
 table and the directories of one machine.
 */
module NodeMounts {
  import opened Sequences
  import opened Wrappers

  /** A mount as the table shows it; ro is what its options say. */
  datatype Mount = Mount(device: string, path: string, ro: bool)

  /** paths says which paths exist, and whether they are directories. */
  datatype Node = Node(mounts: seq<Mount>, paths: map<string, bool>)

  datatype Reply = Done | Refused

  /** The file system under a path no device is mounted on. */
  const HOST: string := ""

  /** Which of the system calls of one request fail; a failing call changes nothing. */
  datatype Faults = Faults(mkdir: bool, mounts: bool, device: bool, mount: bool, unmount: bool, rmdir: bool)

  const NO_FAULTS: Faults := Faults(false, false, false, false, false, false)

  // ---------- the table ----------

  function MountsOf(mounts: seq<Mount>, device: string): seq<Mount> {
    if mounts == [] then [] else IfOf(mounts[0], device) + MountsOf(mounts[1..], device)
  }

  function IfOf(m: Mount, device: string): seq<Mount> {
    if m.device == device then [m] else []
  }

  function FirstAt(mounts: seq<Mount>, path: string): Option<Mount> {
    if mounts == [] then None
    else if mounts[0].path == path then Some(mounts[0])
    else FirstAt(mounts[1..], path)
  }

  /** Unmounting takes the mount made last off a path. */
  function Unmounted(mounts: seq<Mount>, path: string): seq<Mount> {
    if mounts == [] then []
    else
      var last := mounts[|mounts| - 1];
      var others := mounts[..|mounts| - 1];
      if last.path == path then others else Unmounted(others, path) + [last]
  }

  predicate IsDirectory(n: Node, path: string) {
    path != "" && path in n.paths && n.paths[path]
  }

  // ---------- the four requests ----------

  /** device is None when the disk of the volume is not attached to the node. */
  datatype Request =
    | Stage(device: Option<string>, target: string, mountable: bool, ro: bool)
    | Unstage(target: string)
    | Publish(device: Option<string>, target: string, staging: string, mountable: bool, ro: bool)
    | Unpublish(target: string)

  function AfterStage(n: Node, r: Request, f: Faults): (Node, Reply)
    requires r.Stage?
  {
    if r.device.None? || f.device || !IsDirectory(n, r.target) || !r.mountable || f.mounts then (n, Refused)
    else
      var mine := MountsOf(n.mounts, r.device.value);
      if mine == [] then
        (if f.mount then (n, Refused) else (n.(mounts := n.mounts + [Mount(r.device.value, r.target, r.ro)]), Done))
      else
        var there := FirstAt(mine, r.target);
        (n, if there.Some? && there.value.ro == r.ro then Done else Refused)
  }

  function AfterUnstage(n: Node, r: Request, f: Faults): (Node, Reply)
    requires r.Unstage?
  {
    var there := FirstAt(n.mounts, r.target);
    if !IsDirectory(n, r.target) || f.mounts then (n, Refused)
    else if there.None? then (n, Done)
    else if f.device || |MountsOf(n.mounts, there.value.device)| > 1 || f.unmount then (n, Refused)
    else (n.(mounts := Unmounted(n.mounts, r.target)), Done)
  }

  /** The target directory is made first and stays, whatever happens afterwards. */
  function AfterPublish(n: Node, r: Request, f: Faults): (Node, Reply)
    requires r.Publish?
  {
    if r.device.None? || r.target == "" || (r.target in n.paths && !n.paths[r.target]) ||
       (r.target !in n.paths && f.mkdir) then (n, Refused)
    else
      var n' := n.(paths := n.paths[r.target := true]);
      var mine := MountsOf(n.mounts, r.device.value);
      if !IsDirectory(n', r.staging) || !r.mountable || f.device || f.mounts then (n', Refused)
      else
        var there := if |mine| > 1 then FirstAt(mine, r.target) else None;
        if there.Some? then (n', if there.value.ro == r.ro then Done else Refused)
        else if mine == [] || f.mount then (n', Refused)
        else
          var below := FirstAt(n.mounts, r.staging);
          var device := if below.Some? then below.value.device else HOST;
          (n'.(mounts := n.mounts + [Mount(device, r.target, r.ro)]), Done)
  }

  function AfterUnpublish(n: Node, r: Request, f: Faults): (Node, Reply)
    requires r.Unpublish?
  {
    if r.target !in n.paths then (n, Done)
    else if f.mounts then (n, Refused)
    else if FirstAt(n.mounts, r.target).None? then (n, Done)
    else if f.device || f.unmount then (n, Refused)
    else
      var n' := n.(mounts := Unmounted(n.mounts, r.target));
      if f.rmdir || FirstAt(n'.mounts, r.target).Some? then (n', Refused)
      else (n'.(paths := n.paths - {r.target}), Done)
  }

  function After(n: Node, r: Request, f: Faults): (Node, Reply) {
    match r
    case Stage(_, _, _, _) => AfterStage(n, r, f)
    case Unstage(_) => AfterUnstage(n, r, f)
    case Publish(_, _, _, _, _) => AfterPublish(n, r, f)
    case Unpublish(_) => AfterUnpublish(n, r, f)
  }

  // ---------- each volume has its own paths ----------

  /** The staging path of every device, and the device every publish target belongs to. */
  datatype Layout = Layout(staging: map<string, string>, targets: map<string, string>)

  ghost predicate OwnPaths(l: Layout) {
    && (forall d, e | d in l.staging && e in l.staging && d != e :: l.staging[d] != l.staging[e])
    && (forall d | d in l.staging :: l.staging[d] !in l.targets)
    && (forall t | t in l.targets :: l.targets[t] in l.staging)
  }

  /** The request keeps to the paths of its volume. */
  ghost predicate Keeps(l: Layout, r: Request) {
    match r
    case Stage(d, target, _, _) => d.Some? ==> d.value in l.staging && l.staging[d.value] == target
    case Unstage(target) => target !in l.targets
    case Publish(d, target, staging, _, _) =>
      d.Some? ==> d.value in l.staging && l.staging[d.value] == staging &&
                  target in l.targets && l.targets[target] == d.value
    case Unpublish(target) => target in l.targets
  }

  ghost predicate PathsDistinct(mounts: seq<Mount>) {
    forall i, j | 0 <= i < j < |mounts| :: mounts[i].path != mounts[j].path
  }

  ghost predicate Staged(n: Node, l: Layout, device: string) {
    device in l.staging && exists m | m in n.mounts :: m.device == device && m.path == l.staging[device]
  }

  /**
   Mount paths are distinct, every mount is where its volume's mounts belong, and a device
   mounted on a target is mounted on its staging path as well.
   */
  ghost predicate Inv(n: Node, l: Layout) {
    && PathsDistinct(n.mounts)
    && (forall m | m in n.mounts ::
          && m.device in l.staging
          && (m.path == l.staging[m.device] || (m.path in l.targets && l.targets[m.path] == m.device)))
    && (forall m | m in n.mounts :: Staged(n, l, m.device))
  }

  // ---------- table facts ----------

  lemma {:induction false} MountsOfFacts(mounts: seq<Mount>, device: string)
    ensures forall m :: m in MountsOf(mounts, device) <==> m in mounts && m.device == device
    ensures |MountsOf(mounts, device)| == 1 ==>
              forall m, m' | m in mounts && m' in mounts && m.device == device && m'.device == device :: m == m'
  {
    if mounts != [] {
      MountsOfFacts(mounts[1..], device);
      if mounts[0].device == device && |MountsOf(mounts, device)| == 1 {
        assert MountsOf(mounts[1..], device) == [];
      }
    }
  }

  lemma {:induction false} FirstAtFacts(mounts: seq<Mount>, path: string)
    ensures var r := FirstAt(mounts, path);
            && (r.Some? ==> r.value in mounts && r.value.path == path)
            && (r.None? ==> forall m | m in mounts :: m.path != path)
  {
    if mounts != [] { FirstAtFacts(mounts[1..], path); }
  }

  /** With distinct paths unmounting takes exactly the one mount of the path out. */
  lemma {:induction false} UnmountedFacts(mounts: seq<Mount>, path: string)
    requires PathsDistinct(mounts)
    ensures PathsDistinct(Unmounted(mounts, path))
    ensures forall m :: m in Unmounted(mounts, path) <==> m in mounts && m.path != path
  {
    if mounts != [] {
      var last, others := mounts[|mounts| - 1], mounts[..|mounts| - 1];
      UnmountedFacts(others, path);
      assert mounts == others + [last];
      assert forall m | m in others :: m.path != last.path;
      if last.path != path {
        var left := Unmounted(others, path);
        forall i, j | 0 <= i < j < |left + [last]| ensures (left + [last])[i].path != (left + [last])[j].path {
          assert left[i] in left;
        }
      }
    }
  }

  lemma SamePath(mounts: seq<Mount>, m: Mount, m': Mount)
    requires PathsDistinct(mounts) && m in mounts && m' in mounts && m.path == m'.path
    ensures m == m'
  {
  }

  lemma MountKeepsInv(n: Node, l: Layout, m: Mount)
    requires Inv(n, l) && OwnPaths(l) && FirstAt(n.mounts, m.path).None? && m.device in l.staging
    requires m.path == l.staging[m.device] ||
             (m.path in l.targets && l.targets[m.path] == m.device && Staged(n, l, m.device))
    ensures Inv(n.(mounts := n.mounts + [m]), l)
  {
    FirstAtFacts(n.mounts, m.path);
    var n' := n.(mounts := n.mounts + [m]);
    assert forall k | k in n.mounts :: k in n'.mounts;
    assert m in n'.mounts;
    assert PathsDistinct(n'.mounts);
    forall k | k in n'.mounts ensures Staged(n', l, k.device) {
      hide PathsDistinct, FirstAt, OwnPaths;
      if k in n.mounts { assert Staged(n, l, k.device); }
    }
  }

  lemma UnmountKeepsInv(n: Node, l: Layout, path: string)
    requires Inv(n, l) && OwnPaths(l)
    requires path in l.targets ||
             (forall m | m in n.mounts && m.path == path :: |MountsOf(n.mounts, m.device)| <= 1)
    ensures Inv(n.(mounts := Unmounted(n.mounts, path)), l)
  {
    var n' := n.(mounts := Unmounted(n.mounts, path));
    UnmountedFacts(n.mounts, path);
    forall m | m in n'.mounts ensures Staged(n', l, m.device) {
      assert Staged(n, l, m.device);
      var base :| base in n.mounts && base.device == m.device && base.path == l.staging[m.device];
      if base.path == path {
        MountsOfFacts(n.mounts, m.device);
        assert false;
      }
      assert base in n'.mounts;
    }
  }

  // ---------- the invariant over every run, whatever fails ----------

  /** What is mounted on the staging path of a device is that device. */
  lemma StagingIsMine(n: Node, l: Layout, device: string)
    requires Inv(n, l) && OwnPaths(l) && device in l.staging && MountsOf(n.mounts, device) == []
    ensures FirstAt(n.mounts, l.staging[device]).None?
  {
    FirstAtFacts(n.mounts, l.staging[device]);
    MountsOfFacts(n.mounts, device);
  }

  lemma StageKeepsInv(n: Node, l: Layout, r: Request, f: Faults)
    requires Inv(n, l) && OwnPaths(l) && Keeps(l, r) && r.Stage?
    ensures Inv(AfterStage(n, r, f).0, l)
  {
    if AfterStage(n, r, f).0 != n {
      var m := Mount(r.device.value, r.target, r.ro);
      StagingIsMine(n, l, m.device);
      MountKeepsInv(n, l, m);
    }
  }

  lemma UnstageKeepsInv(n: Node, l: Layout, r: Request, f: Faults)
    requires Inv(n, l) && OwnPaths(l) && Keeps(l, r) && r.Unstage?
    ensures Inv(AfterUnstage(n, r, f).0, l)
  {
    FirstAtFacts(n.mounts, r.target);
    if AfterUnstage(n, r, f).0 != n {
      forall m | m in n.mounts && m.path == r.target ensures |MountsOf(n.mounts, m.device)| <= 1 {
        SamePath(n.mounts, m, FirstAt(n.mounts, r.target).value);
      }
      UnmountKeepsInv(n, l, r.target);
    }
  }

  /** A staged device is what a bind mount of its staging path shows. */
  lemma BelowStaging(n: Node, l: Layout, device: string)
    requires Inv(n, l) && OwnPaths(l) && MountsOf(n.mounts, device) != []
    ensures Staged(n, l, device)
    ensures var below := FirstAt(n.mounts, l.staging[device]); below.Some? && below.value.device == device
  {
    MountsOfFacts(n.mounts, device);
    var m := MountsOf(n.mounts, device)[0];
    assert m in MountsOf(n.mounts, device);
    assert Staged(n, l, m.device);
    var base :| base in n.mounts && base.device == device && base.path == l.staging[device];
    FirstAtFacts(n.mounts, l.staging[device]);
    SamePath(n.mounts, base, FirstAt(n.mounts, l.staging[device]).value);
  }

  /** On a target of its own a device is mounted, if at all, by itself. */
  lemma TargetIsMine(n: Node, l: Layout, device: string, target: string)
    requires Inv(n, l) && OwnPaths(l) && target in l.targets && l.targets[target] == device
    requires MountsOf(n.mounts, device) != []
    ensures FirstAt(n.mounts, target) == FirstAt(MountsOf(n.mounts, device), target)
    ensures FirstAt(n.mounts, target).Some? ==> |MountsOf(n.mounts, device)| > 1
  {
    var mine := MountsOf(n.mounts, device);
    MountsOfFacts(n.mounts, device);
    FirstAtFacts(n.mounts, target);
    FirstAtFacts(mine, target);
    BelowStaging(n, l, device);
    if FirstAt(n.mounts, target).Some? {
      var m := FirstAt(n.mounts, target).value;
      assert m in mine;
      SamePath(n.mounts, m, FirstAt(mine, target).value);
      FirstAtFacts(n.mounts, l.staging[device]);
      var base := FirstAt(n.mounts, l.staging[device]).value;
      assert base in mine && base != m;
      if |mine| == 1 { assert false; }
    }
  }

  lemma PublishKeepsInv(n: Node, l: Layout, r: Request, f: Faults)
    requires Inv(n, l) && OwnPaths(l) && Keeps(l, r) && r.Publish?
    ensures Inv(AfterPublish(n, r, f).0, l)
  {
    var n' := AfterPublish(n, r, f).0;
    if n'.mounts != n.mounts {
      var device := r.device.value;
      BelowStaging(n, l, device);
      TargetIsMine(n, l, device, r.target);
      MountKeepsInv(n, l, Mount(device, r.target, r.ro));
    }
    OnlyMountsMatter(n, n', l);
  }

  /** Directories come and go without touching the invariant. */
  lemma OnlyMountsMatter(n: Node, n': Node, l: Layout)
    ensures n'.mounts == n.mounts ==> (Inv(n, l) <==> Inv(n', l))
    ensures Inv(n.(mounts := n'.mounts), l) ==> Inv(n', l)
  {
    if n'.mounts == n.mounts {
      assert forall d :: Staged(n, l, d) <==> Staged(n', l, d);
    }
    var k := n.(mounts := n'.mounts);
    assert forall d :: Staged(k, l, d) <==> Staged(n', l, d);
  }

  lemma UnpublishKeepsInv(n: Node, l: Layout, r: Request, f: Faults)
    requires Inv(n, l) && OwnPaths(l) && Keeps(l, r) && r.Unpublish?
    ensures Inv(AfterUnpublish(n, r, f).0, l)
  {
    var n' := AfterUnpublish(n, r, f).0;
    if n'.mounts != n.mounts {
      UnmountKeepsInv(n, l, r.target);
    }
    OnlyMountsMatter(n, n', l);
  }

  lemma RequestKeepsInv(n: Node, l: Layout, r: Request, f: Faults)
    requires Inv(n, l) && OwnPaths(l) && Keeps(l, r)
    ensures Inv(After(n, r, f).0, l)
  {
    match r
    case Stage(_, _, _, _) => StageKeepsInv(n, l, r, f);
    case Unstage(_) => UnstageKeepsInv(n, l, r, f);
    case Publish(_, _, _, _, _) => PublishKeepsInv(n, l, r, f);
    case Unpublish(_) => UnpublishKeepsInv(n, l, r, f);
  }

  function AfterAll(n: Node, requests: seq<(Request, Faults)>): Node
    decreases |requests|
  {
    if requests == [] then n else AfterAll(After(n, requests[0].0, requests[0].1).0, requests[1..])
  }

  lemma {:induction false} RunsKeepInv(n: Node, l: Layout, requests: seq<(Request, Faults)>)
    requires Inv(n, l) && OwnPaths(l) && forall q | q in requests :: Keeps(l, q.0)
    ensures Inv(AfterAll(n, requests), l)
    decreases |requests|
  {
    if requests != [] {
      RequestKeepsInv(n, l, requests[0].0, requests[0].1);
      RunsKeepInv(After(n, requests[0].0, requests[0].1).0, l, requests[1..]);
    }
  }

  // ---------- repeating a request ----------

  /** A request that succeeded succeeds again and changes nothing. */
  lemma RequestTwice(n: Node, l: Layout, r: Request, f: Faults)
    requires Inv(n, l) && OwnPaths(l) && Keeps(l, r) && After(n, r, f).1.Done?
    ensures After(After(n, r, f).0, r, NO_FAULTS) == After(n, r, f)
  {
    hide Inv, OwnPaths, PathsDistinct, MountsOf, FirstAt, Unmounted;
    match r
    case Stage(d, target, _, _) =>
      StageTwice(n, l, r, f);
    case Publish(d, target, staging, _, _) =>
      PublishTwice(n, l, r, f);
    case Unstage(target) =>
      NothingLeft(n, l, target);
    case Unpublish(target) =>
      NothingLeft(n, l, target);
  }

  lemma NothingLeft(n: Node, l: Layout, path: string)
    requires Inv(n, l)
    ensures FirstAt(Unmounted(n.mounts, path), path).None?
  {
    UnmountedFacts(n.mounts, path);
    FirstAtFacts(Unmounted(n.mounts, path), path);
  }

  lemma StageTwice(n: Node, l: Layout, r: Request, f: Faults)
    requires Inv(n, l) && OwnPaths(l) && Keeps(l, r) && r.Stage? && AfterStage(n, r, f).1.Done?
    ensures AfterStage(AfterStage(n, r, f).0, r, NO_FAULTS) == AfterStage(n, r, f)
  {
    if AfterStage(n, r, f).0 != n {
      var m := Mount(r.device.value, r.target, r.ro);
      AddedIsFound(n.mounts, m);
      assert MountsOf(n.mounts, m.device) + [m] == [m];
    }
  }

  lemma {:induction false} AddedIsFound(mounts: seq<Mount>, m: Mount)
    ensures MountsOf(mounts + [m], m.device) == MountsOf(mounts, m.device) + [m]
    ensures FirstAt(mounts, m.path).None? ==> FirstAt(mounts + [m], m.path) == Some(m)
  {
    if mounts == [] {
      assert mounts + [m] == [m];
    } else {
      assert (mounts + [m])[1..] == mounts[1..] + [m];
      AddedIsFound(mounts[1..], m);
    }
  }

  lemma PublishTwice(n: Node, l: Layout, r: Request, f: Faults)
    requires Inv(n, l) && OwnPaths(l) && Keeps(l, r) && r.Publish? && AfterPublish(n, r, f).1.Done?
    ensures AfterPublish(AfterPublish(n, r, f).0, r, NO_FAULTS) == AfterPublish(n, r, f)
  {
    var n' := AfterPublish(n, r, f).0;
    var device := r.device.value;
    assert n'.paths[r.target := true] == n'.paths;
    BelowStaging(n, l, device);
    TargetIsMine(n, l, device, r.target);
    if n'.mounts != n.mounts {
      PublishKeepsInv(n, l, r, f);
      AddedIsFound(n.mounts, Mount(device, r.target, r.ro));
      TargetIsMine(n', l, device, r.target);
    }
  }

  // ---------- when unstaging is refused ----------

  /** The device is mounted on a publish target. */
  ghost predicate Published(n: Node, l: Layout, device: string) {
    exists m | m in n.mounts :: m.device == device && m.path in l.targets
  }

  /** Two mounts of a device are two different mounts. */
  lemma {:induction false} Another(mounts: seq<Mount>, device: string, base: Mount) returns (m: Mount)
    requires PathsDistinct(mounts) && |MountsOf(mounts, device)| > 1
    ensures m in mounts && m.device == device && m != base
  {
    if mounts[0].device == device {
      var rest := MountsOf(mounts[1..], device);
      MountsOfFacts(mounts[1..], device);
      assert rest[0] in rest;
      m := if mounts[0] == base then rest[0] else mounts[0];
    } else {
      m := Another(mounts[1..], device, base);
    }
  }

  /** A device with one mount is mounted on its staging path and nowhere else. */
  lemma PublishedMeansTwo(n: Node, l: Layout, device: string)
    requires Inv(n, l) && OwnPaths(l) && Staged(n, l, device)
    ensures |MountsOf(n.mounts, device)| > 1 <==> Published(n, l, device)
  {
    var path, mine := l.staging[device], MountsOf(n.mounts, device);
    var base :| base in n.mounts && base.device == device && base.path == path;
    MountsOfFacts(n.mounts, device);
    assert base in mine;
    if |mine| > 1 {
      var m := Another(n.mounts, device, base);
      if m.path == path { SamePath(n.mounts, m, base); }
    }
  }

  /** Without faults a staged volume is unstaged exactly when it is published nowhere. */
  lemma UnstageExact(n: Node, l: Layout, device: string)
    requires Inv(n, l) && OwnPaths(l) && Staged(n, l, device) && IsDirectory(n, l.staging[device])
    ensures var (n', reply) := AfterUnstage(n, Unstage(l.staging[device]), NO_FAULTS);
            && (reply.Refused? <==> Published(n, l, device))
            && (reply.Done? ==> forall m :: m in n'.mounts <==> m in n.mounts && m.device != device)
            && (reply.Refused? ==> n' == n)
  {
    PublishedMeansTwo(n, l, device);
    var path := l.staging[device];
    var base :| base in n.mounts && base.device == device && base.path == path;
    FirstAtFacts(n.mounts, path);
    SamePath(n.mounts, base, FirstAt(n.mounts, path).value);
    MountsOfFacts(n.mounts, device);
    UnmountedFacts(n.mounts, path);
    assert base in MountsOf(n.mounts, device);
    hide PathsDistinct, Inv, MountsOf, FirstAt, Unmounted, OwnPaths;
  }

  // ---------- what an unpublish leaves behind ----------

  /** After a successful unpublish the target is gone exactly when it was absent or mounted on. */
  lemma UnpublishExact(n: Node, r: Request, f: Faults)
    requires r.Unpublish?
    ensures var (n', reply) := AfterUnpublish(n, r, f);
            && (reply.Done? && r.target in n.paths ==> forall m | m in n'.mounts :: m.path != r.target)
            && (reply.Done? ==>
                  (r.target !in n'.paths <==> r.target !in n.paths || exists m | m in n.mounts :: m.path == r.target))
  {
    FirstAtFacts(n.mounts, r.target);
    FirstAtFacts(Unmounted(n.mounts, r.target), r.target);
  }

  /** When the directory cannot be removed, a retry succeeds at once and leaves it there. */
  lemma RetryKeepsTarget(n: Node, target: string)
    requires PathsDistinct(n.mounts) && FirstAt(n.mounts, target).Some? && target in n.paths
    ensures var (n1, refused) := AfterUnpublish(n, Unpublish(target), NO_FAULTS.(rmdir := true));
            var (n2, done) := AfterUnpublish(n1, Unpublish(target), NO_FAULTS);
            refused.Refused? && done.Done? && n2 == n1 && target in n2.paths
  {
    UnmountedFacts(n.mounts, target);
    FirstAtFacts(Unmounted(n.mounts, target), target);
  }

  // ---------- a full cycle ----------

  /** Publishing a staged volume on a fresh target adds one mount, and unpublishing takes it off. */
  lemma PublishThenUnpublish(n: Node, l: Layout, device: string, target: string, ro: bool)
    requires Inv(n, l) && OwnPaths(l) && target in l.targets && l.targets[target] == device
    requires Staged(n, l, device) && IsDirectory(n, l.staging[device])
    requires FirstAt(n.mounts, target).None? && target != "" && (target in n.paths ==> n.paths[target])
    ensures var (n1, r1) := AfterPublish(n, Publish(Some(device), target, l.staging[device], true, ro), NO_FAULTS);
            var (n2, r2) := AfterUnpublish(n1, Unpublish(target), NO_FAULTS);
            && r1.Done? && n1.mounts == n.mounts + [Mount(device, target, ro)]
            && r2.Done? && n2 == Node(n.mounts, n.paths - {target})
  {
    var m := Mount(device, target, ro);
    MountsOfFacts(n.mounts, device);
    BelowStaging(n, l, device);
    TargetIsMine(n, l, device, target);
    AddedIsFound(n.mounts, m);
    UnmountAdded(n.mounts, m);
    assert n.paths[target := true] - {target} == n.paths - {target};
    hide Inv, OwnPaths, PathsDistinct, Staged, FirstAt, MountsOf, Unmounted;
  }

  lemma UnmountAdded(mounts: seq<Mount>, m: Mount)
    ensures Unmounted(mounts + [m], m.path) == mounts
  {
    assert (mounts + [m])[..|mounts|] == mounts;
  }

  /** Staging an unmounted volume adds one mount, and unstaging takes it off. */
  lemma StageThenUnstage(n: Node, l: Layout, device: string, ro: bool)
    requires Inv(n, l) && OwnPaths(l) && device in l.staging
    requires MountsOf(n.mounts, device) == [] && IsDirectory(n, l.staging[device])
    ensures var (n1, r1) := AfterStage(n, Stage(Some(device), l.staging[device], true, ro), NO_FAULTS);
            && r1.Done? && n1 == n.(mounts := n.mounts + [Mount(device, l.staging[device], ro)])
            && Staged(n1, l, device)
            && (forall paths | IsDirectory(Node(n1.mounts, paths), l.staging[device]) ::
                  AfterUnstage(Node(n1.mounts, paths), Unstage(l.staging[device]), NO_FAULTS) ==
                  (Node(n.mounts, paths), Done))
  {
    var m := Mount(device, l.staging[device], ro);
    StagingIsMine(n, l, device);
    AddedIsFound(n.mounts, m);
    UnmountAdded(n.mounts, m);
    assert m in n.mounts + [m];
    hide Inv, OwnPaths, PathsDistinct, FirstAt, MountsOf, Unmounted;
  }

  /**
   Stage, publish, unpublish, unstage of an unmounted volume all succeed and give the mount
   table back as it was.  The target directory is gone at the end, so the paths come back
   exactly when it did not exist before.
   */
  lemma FullCycle(n: Node, l: Layout, device: string, target: string, ro: bool, readonly: bool)
    requires Inv(n, l) && OwnPaths(l) && target in l.targets && l.targets[target] == device
    requires MountsOf(n.mounts, device) == [] && IsDirectory(n, l.staging[device])
    requires target != "" && (target in n.paths ==> n.paths[target])
    ensures var staging := l.staging[device];
            var (n1, r1) := AfterStage(n, Stage(Some(device), staging, true, ro), NO_FAULTS);
            var (n2, r2) := AfterPublish(n1, Publish(Some(device), target, staging, true, readonly), NO_FAULTS);
            var (n3, r3) := AfterUnpublish(n2, Unpublish(target), NO_FAULTS);
            var (n4, r4) := AfterUnstage(n3, Unstage(staging), NO_FAULTS);
            && r1.Done? && r2.Done? && r3.Done? && r4.Done?
            && n4 == Node(n.mounts, n.paths - {target})
            && (n4 == n <==> target !in n.paths)
  {
    hide FirstAt, MountsOf, Unmounted, Staged, PathsDistinct, Inv;
    hide AfterStage, AfterPublish, AfterUnpublish, AfterUnstage;
    var stage := Stage(Some(device), l.staging[device], true, ro);
    StageKeepsInv(n, l, stage, NO_FAULTS);
    StageThenUnstage(n, l, device, ro);
    var n1 := AfterStage(n, stage, NO_FAULTS).0;
    TargetIsFree(n, l, device, target, ro);
    PublishThenUnpublish(n1, l, device, target, readonly);
    assert l.staging[device] != target;
    var left := n.paths - {target};
    assert IsDirectory(Node(n1.mounts, left), l.staging[device]);
    assert target !in n.paths ==> left == n.paths;
  }

  /** Right after staging nothing is mounted on the target yet. */
  lemma TargetIsFree(n: Node, l: Layout, device: string, target: string, ro: bool)
    requires Inv(n, l) && OwnPaths(l) && target in l.targets && l.targets[target] == device
    requires MountsOf(n.mounts, device) == []
    ensures FirstAt(n.mounts + [Mount(device, l.staging[device], ro)], target).None?
  {
    var staged := n.mounts + [Mount(device, l.staging[device], ro)];
    MountsOfFacts(n.mounts, device);
    FirstAtFacts(staged, target);
  }

  // ---------- the service ----------

  lemma {:induction false} MountsOfAppend(mounts: seq<Mount>, m: Mount, device: string)
    ensures MountsOf(mounts + [m], device) == MountsOf(mounts, device) + IfOf(m, device)
  {
    if mounts == [] {
      assert mounts + [m] == [m];
    } else {
      assert (mounts + [m])[1..] == mounts[1..] + [m];
      MountsOfAppend(mounts[1..], m, device);
      Assoc(IfOf(mounts[0], device), MountsOf(mounts[1..], device), IfOf(m, device));
    }
  }

  lemma {:induction false} FirstAtSkips(mounts: seq<Mount>, i: nat, path: string)
    requires i <= |mounts| && forall k | 0 <= k < i :: mounts[k].path != path
    ensures FirstAt(mounts, path) == FirstAt(mounts[i..], path)
  {
    if i > 0 {
      FirstAtSkips(mounts[1..], i - 1, path);
      assert mounts[1..][i - 1..] == mounts[i..];
    }
  }

  /** Unmounting a path takes one mount off it; a second one stays visible. */
  lemma {:induction false} SecondStays(mounts: seq<Mount>, i: nat, j: nat)
    requires i < j < |mounts| && mounts[i].path == mounts[j].path
    ensures exists m | m in Unmounted(mounts, mounts[i].path) :: m.path == mounts[i].path
  {
    var last, others := mounts[|mounts| - 1], mounts[..|mounts| - 1];
    var path := mounts[i].path;
    if last.path == path {
      assert others[i] in others;
    } else {
      SecondStays(others, i, j);
      var m :| m in Unmounted(others, path) && m.path == path;
      assert m in Unmounted(mounts, path);
    }
  }

  class Service {
    var mounts: seq<Mount>
    var paths: map<string, bool>

    ghost function State(): Node
      reads this
    {
      Node(mounts, paths)
    }

    /** Every mount of one device, in table order. */
    method GetDevMounts(device: string, fails: bool) returns (mine: Option<seq<Mount>>)
      ensures mine == if fails then None else Some(MountsOf(mounts, device))
    {
      if fails { return None; }
      var found, i := [], 0;
      while i < |mounts|
        invariant i <= |mounts|
        invariant found == MountsOf(mounts[..i], device)
      {
        assert mounts[..i + 1] == mounts[..i] + [mounts[i]];
        MountsOfAppend(mounts[..i], mounts[i], device);
        if mounts[i].device == device { found := found + [mounts[i]]; }
        i := i + 1;
      }
      assert mounts[..i] == mounts;
      return Some(found);
    }

    /** The device mounted on a path, Some(None) when there is none and None when the look-up fails. */
    method GetDevFromMount(target: string, f: Faults) returns (device: Option<Option<string>>)
      ensures var there := FirstAt(mounts, target);
              device == if f.mounts then None
                        else if there.None? then Some(None)
                        else if f.device then None
                        else Some(Some(there.value.device))
    {
      if f.mounts { return None; }
      var i := 0;
      while i < |mounts|
        invariant i <= |mounts|
        invariant forall k | 0 <= k < i :: mounts[k].path != target
      {
        FirstAtSkips(mounts, i, target);
        if mounts[i].path == target {
          return if f.device then None else Some(Some(mounts[i].device));
        }
        i := i + 1;
      }
      FirstAtSkips(mounts, i, target);
      return Some(None);
    }

    method Find(mine: seq<Mount>, target: string) returns (there: Option<Mount>)
      ensures there == FirstAt(mine, target)
    {
      var i := 0;
      while i < |mine|
        invariant i <= |mine|
        invariant forall k | 0 <= k < i :: mine[k].path != target
      {
        FirstAtSkips(mine, i, target);
        if mine[i].path == target { return Some(mine[i]); }
        i := i + 1;
      }
      FirstAtSkips(mine, i, target);
      return None;
    }

    /** Mounts device, or the device below a path, on target. */
    method MountOn(device: string, target: string, ro: bool, fails: bool) returns (done: bool)
      modifies `mounts
      ensures done == !fails
      ensures mounts == if fails then old(mounts) else old(mounts) + [Mount(device, target, ro)]
    {
      done := !fails;
      if done { mounts := mounts + [Mount(device, target, ro)]; }
    }

    method Unmount(target: string, fails: bool) returns (done: bool)
      modifies `mounts
      ensures done == !fails
      ensures mounts == if fails then old(mounts) else Unmounted(old(mounts), target)
    {
      done := !fails;
      if fails { return; }
      var table, i := mounts, |mounts|;
      assert table[..i] == table;
      while i > 0 && table[i - 1].path != target
        invariant 0 <= i <= |table|
        invariant Unmounted(table, target) == Unmounted(table[..i], target) + table[i..]
      {
        assert table[..i][..i - 1] == table[..i - 1];
        assert [table[i - 1]] + table[i..] == table[i - 1..];
        i := i - 1;
      }
      if i > 0 {
        assert table[..i][..i - 1] == table[..i - 1];
        mounts := table[..i - 1] + table[i..];
      } else {
        assert table[0..] == table;
      }
    }

    method NodeStageVolume(r: Request, f: Faults) returns (reply: Reply)
      requires r.Stage?
      modifies this
      ensures (State(), reply) == AfterStage(old(State()), r, f)
    {
      if r.device.None? || f.device { return Refused; }
      if !IsDirectory(Node(mounts, paths), r.target) || !r.mountable { return Refused; }
      var mine := GetDevMounts(r.device.value, f.mounts);
      if mine.None? { return Refused; }
      if mine.value == [] {
        var done := MountOn(r.device.value, r.target, r.ro, f.mount);
        return if done then Done else Refused;
      }
      var there := Find(mine.value, r.target);
      return if there.Some? && there.value.ro == r.ro then Done else Refused;
    }

    method NodeUnstageVolume(r: Request, f: Faults) returns (reply: Reply)
      requires r.Unstage?
      modifies this
      ensures (State(), reply) == AfterUnstage(old(State()), r, f)
    {
      if !IsDirectory(Node(mounts, paths), r.target) { return Refused; }
      var device := GetDevFromMount(r.target, f);
      if device.None? { return Refused; }
      if device.value.None? { return Done; }
      var mine := GetDevMounts(device.value.value, f.mounts);
      if mine.None? || |mine.value| > 1 { return Refused; }
      var done := Unmount(r.target, f.unmount);
      return if done then Done else Refused;
    }

    method NodePublishVolume(r: Request, f: Faults) returns (reply: Reply)
      requires r.Publish?
      modifies this
      ensures (State(), reply) == AfterPublish(old(State()), r, f)
    {
      if r.device.None? || r.target == "" { return Refused; }
      if r.target in paths {
        if !paths[r.target] { return Refused; }
      } else if f.mkdir {
        return Refused;
      }
      paths := paths[r.target := true];
      if !IsDirectory(Node(mounts, paths), r.staging) || !r.mountable || f.device { return Refused; }
      var mine := GetDevMounts(r.device.value, f.mounts);
      if mine.None? { return Refused; }
      if |mine.value| > 1 {
        var there := Find(mine.value, r.target);
        if there.Some? { return if there.value.ro == r.ro then Done else Refused; }
      } else if |mine.value| == 0 {
        return Refused;
      }
      var below := Find(mounts, r.staging);
      var done := MountOn(if below.Some? then below.value.device else HOST, r.target, r.ro, f.mount);
      return if done then Done else Refused;
    }

    /** Walks a snapshot of the table and unmounts whatever is on the target. */
    method NodeUnpublishVolume(r: Request, f: Faults) returns (reply: Reply)
      requires r.Unpublish?
      modifies this
      ensures (State(), reply) == AfterUnpublish(old(State()), r, f)
    {
      if r.target !in paths { return Done; }
      var device := GetDevFromMount(r.target, f);
      if device.None? { return Refused; }
      if device.value.None? { return Done; }
      ghost var first := FirstAt(mounts, r.target).value;
      FirstAtFacts(mounts, r.target);
      var snapshot, i := mounts, 0;
      ghost var left := Unmounted(snapshot, r.target);
      while i < |snapshot|
        invariant i <= |snapshot| && snapshot == old(mounts) && first in snapshot
        invariant State() == old(State()) ||
                  (State() == Node(left, old(paths) - {r.target}) && FirstAt(left, r.target).None? &&
                   !f.unmount && !f.rmdir)
        invariant State() == old(State()) ==> first in snapshot[i..]
        invariant State() != old(State()) ==> exists k | 0 <= k < i :: snapshot[k].path == r.target
      {
        if snapshot[i].device == device.value.value && snapshot[i].path == r.target {
          if State() != old(State()) {
            ghost var k :| 0 <= k < i && snapshot[k].path == r.target;
            SecondStays(snapshot, k, i);
            FirstAtFacts(left, r.target);
            assert false;
          }
          var done := Unmount(r.target, f.unmount);
          if !done { return Refused; }
          // A directory something is still mounted on cannot be removed.
          var busy := Find(mounts, r.target);
          if f.rmdir || busy.Some? { return Refused; }
          paths := paths - {r.target};
        }
        i := i + 1;
      }
      return Done;
    }
  }
}
