/**
 Checking which volumes are attached to which nodes.  Two routines mark the volumes a virtual
 machine has: one looks the paths up in a set, the other compares every path with every
 device.  CheckDisksAttached uses the second over all nodes of a datacenter.
 */
module VolumeCheck {
  import opened Wrappers

  /** A virtual disk with a flat file behind it, or any other device. */
  datatype Device = FlatDisk(file: string) | Other

  /** config is None where the virtual machine's configuration is not available. */
  datatype VM = VM(name: string, config: Option<seq<Device>>)

  type Attached = map<string, map<string, bool>>

  datatype Fault = PropertiesUnavailable

  function Hits(devices: seq<Device>, paths: seq<string>): set<string> {
    set p | p in paths && FlatDisk(p) in devices
  }

  /** The paths are marked as attached to the node; without any there is nothing to enter. */
  function Marked(m: Attached, node: string, paths: set<string>): Attached {
    if paths == {} then m
    else m[node := (if node in m then m[node] else map[]) + map p | p in paths :: true]
  }

  method SetNodeVolumeMap(m: Attached, path: string, node: string, check: bool) returns (m': Attached)
    ensures m' == m[node := (if node in m then m[node] else map[])[path := check]]
  {
    m' := m;
    if node !in m' {
      m' := m'[node := map[]];
    }
    m' := m'[node := m'[node][path := check]];
    assert m'[node] == (if node in m then m[node] else map[])[path := check];
  }

  lemma MarkOneMore(m: Attached, node: string, paths: set<string>, p: string)
    ensures var before := Marked(m, node, paths);
            Marked(m, node, paths + {p}) == before[node := (if node in before then before[node] else map[])[p := true]]
  {
    var volumes := if node in m then m[node] else map[];
    var some, more := map q | q in paths :: true, map q | q in paths + {p} :: true;
    assert some[p := true] == more;
    assert (volumes + some)[p := true] == volumes + more;
    if paths == {} {
      assert some == map[] && volumes + some == volumes;
    }
  }

  /** The check over a set of paths. */
  method VerifyVolumePathsForVMDevices(devices: seq<Device>, paths: seq<string>, node: string, m: Attached)
    returns (m': Attached)
    ensures m' == Marked(m, node, Hits(devices, paths))
  {
    var wanted: set<string> := {};
    for i := 0 to |paths|
      invariant forall p :: p in wanted <==> p in paths[..i]
    {
      wanted := wanted + {paths[i]};
    }
    assert paths[..|paths|] == paths;
    m' := m;
    for j := 0 to |devices|
      invariant m' == Marked(m, node, Hits(devices[..j], paths))
    {
      ghost var before := Hits(devices[..j], paths);
      assert devices[..j + 1] == devices[..j] + [devices[j]];
      if devices[j].FlatDisk? && devices[j].file in wanted {
        assert Hits(devices[..j + 1], paths) == before + {devices[j].file};
        MarkOneMore(m, node, before, devices[j].file);
        m' := SetNodeVolumeMap(m', devices[j].file, node, true);
      } else {
        assert Hits(devices[..j + 1], paths) == before;
      }
    }
    assert devices[..|devices|] == devices;
  }

  lemma HitsMoreDevices(devices: seq<Device>, paths: seq<string>, j: nat)
    requires j < |devices|
    ensures Hits(devices[..j + 1], paths) == Hits(devices[..j], paths) +
            if devices[j].FlatDisk? && devices[j].file in paths then {devices[j].file} else {}
  {
    assert devices[..j + 1] == devices[..j] + [devices[j]];
  }

  lemma HitsMorePaths(devices: seq<Device>, paths: seq<string>, i: nat)
    requires i < |paths|
    ensures Hits(devices, paths[..i + 1]) == Hits(devices, paths[..i]) + Hits(devices, [paths[i]])
  {
    assert paths[..i + 1] == paths[..i] + [paths[i]];
  }

  /** The check of every path against every device. */
  method VerifyVolumePathsForVM(devices: seq<Device>, paths: seq<string>, node: string, m: Attached)
    returns (m': Attached)
    ensures m' == Marked(m, node, Hits(devices, paths))
  {
    m' := m;
    for i := 0 to |paths|
      invariant m' == Marked(m, node, Hits(devices, paths[..i]))
    {
      m' := VerifyPath(devices, paths[i], node, m, Hits(devices, paths[..i]), m');
      HitsMorePaths(devices, paths, i);
    }
    assert paths[..|paths|] == paths;
  }

  /** One path against every device, after others. */
  method VerifyPath(devices: seq<Device>, path: string, node: string, ghost m: Attached, ghost before: set<string>,
                    marked: Attached)
    returns (m': Attached)
    requires marked == Marked(m, node, before)
    ensures m' == Marked(m, node, before + Hits(devices, [path]))
  {
    m' := marked;
    assert before + Hits(devices[..0], [path]) == before;
    for j := 0 to |devices|
      invariant m' == Marked(m, node, before + Hits(devices[..j], [path]))
    {
      ghost var now := before + Hits(devices[..j], [path]);
      HitsMoreDevices(devices, [path], j);
      if devices[j] == FlatDisk(path) {
        assert before + Hits(devices[..j + 1], [path]) == now + {path};
        MarkOneMore(m, node, now, path);
        m' := SetNodeVolumeMap(m', path, node, true);
      } else {
        assert before + Hits(devices[..j + 1], [path]) == now;
      }
    }
    assert devices[..|devices|] == devices;
  }

  // ---------- all nodes ----------

  predicate Entered(m: Attached, node: string, path: string) {
    node in m && path in m[node]
  }

  predicate IsTrue(m: Attached, node: string, path: string) {
    Entered(m, node, path) && m[node][path]
  }

  predicate Requested(nodeVolumes: map<string, seq<string>>, node: string, path: string) {
    node in nodeVolumes && path in nodeVolumes[node]
  }

  /** A virtual machine of that name has a disk backed by exactly that file. */
  predicate Has(vm: VM, node: string, path: string) {
    vm.name == node && vm.config.Some? && FlatDisk(path) in vm.config.value
  }

  lemma MarkedMeans(m: Attached, node: string, paths: set<string>)
    ensures forall n, p :: Entered(Marked(m, node, paths), n, p) <==> Entered(m, n, p) || (n == node && p in paths)
    ensures forall n, p :: IsTrue(Marked(m, node, paths), n, p) <==> IsTrue(m, n, p) || (n == node && p in paths)
  {
  }

  lemma EnterOne(m: Attached, node: string, path: string)
    ensures var m' := m[node := (if node in m then m[node] else map[])[path := false]];
            && (forall n, p :: Entered(m', n, p) <==> Entered(m, n, p) || (n == node && p == path))
            && (forall n, p :: IsTrue(m', n, p) <==> IsTrue(m, n, p) && !(n == node && p == path))
  {
    var volumes := (if node in m then m[node] else map[])[path := false];
    var m' := m[node := volumes];
    forall n, p ensures Entered(m', n, p) <==> Entered(m, n, p) || (n == node && p == path) {
      assert n == node ==> m'[n] == volumes;
    }
    forall n, p ensures IsTrue(m', n, p) <==> IsTrue(m, n, p) && !(n == node && p == path) {
      assert n == node ==> m'[n] == volumes;
    }
  }

  /** All requested pairs of one node are entered as not attached. */
  method EnterNode(nodeVolumes: map<string, seq<string>>, node: string, m: Attached) returns (m': Attached)
    requires node in nodeVolumes && node !in m
    ensures forall n, p :: Entered(m', n, p) <==> Entered(m, n, p) || (n == node && Requested(nodeVolumes, n, p))
    ensures forall n, p :: IsTrue(m', n, p) <==> IsTrue(m, n, p)
    ensures m'.Keys <= m.Keys + {node}
  {
    var paths := nodeVolumes[node];
    m' := m;
    for i := 0 to |paths|
      invariant m'.Keys <= m.Keys + {node}
      invariant forall n, p :: Entered(m', n, p) <==> Entered(m, n, p) || (n == node && p in paths[..i])
      invariant forall n, p :: IsTrue(m', n, p) <==> IsTrue(m, n, p)
    {
      assert paths[..i + 1] == paths[..i] + [paths[i]];
      EnterOne(m', node, paths[i]);
      assert forall p :: p in paths[..i + 1] <==> p in paths[..i] || p == paths[i];
      m' := SetNodeVolumeMap(m', paths[i], node, false);
    }
    assert paths[..|paths|] == paths;
  }

  /** Marks what one retrieved virtual machine has, for every node of its name. */
  method VerifyVM(nodeVolumes: map<string, seq<string>>, vm: VM, m: Attached) returns (m': Attached)
    requires forall n, p :: Entered(m, n, p) <==> Requested(nodeVolumes, n, p)
    ensures forall n, p :: Entered(m', n, p) <==> Requested(nodeVolumes, n, p)
    ensures forall n, p :: IsTrue(m', n, p) <==> IsTrue(m, n, p) || (Requested(nodeVolumes, n, p) && Has(vm, n, p))
  {
    m' := m;
    if vm.config.None? { return; }
    var rest := nodeVolumes.Keys;
    while rest != {}
      invariant rest <= nodeVolumes.Keys
      invariant forall n, p :: Entered(m', n, p) <==> Requested(nodeVolumes, n, p)
      invariant forall n, p :: IsTrue(m', n, p) <==>
                  IsTrue(m, n, p) || (n !in rest && Requested(nodeVolumes, n, p) && Has(vm, n, p))
    {
      var node :| node in rest;
      if node == vm.name {
        MarkedMeans(m', node, Hits(vm.config.value, nodeVolumes[node]));
        m' := VerifyVolumePathsForVM(vm.config.value, nodeVolumes[node], node, m');
      }
      rest := rest - {node};
    }
  }

  /** The machine was found for one of the nodes. */
  ghost predicate IsFound(nodes: set<string>, found: map<string, VM>, vm: VM) {
    exists k | k in nodes && k in found :: found[k] == vm
  }

  /** Enters every requested pair, and gathers the machines that are found. */
  method EnterNodes(nodeVolumes: map<string, seq<string>>, found: map<string, VM>)
    returns (m: Attached, vms: seq<VM>)
    ensures forall n, p :: Entered(m, n, p) <==> Requested(nodeVolumes, n, p)
    ensures forall n, p :: !IsTrue(m, n, p)
    ensures forall vm :: vm in vms <==> IsFound(nodeVolumes.Keys, found, vm)
  {
    m, vms := map[], [];
    var rest := nodeVolumes.Keys;
    while rest != {}
      invariant rest <= nodeVolumes.Keys && m.Keys !! rest
      invariant forall n, p :: Entered(m, n, p) <==> n !in rest && Requested(nodeVolumes, n, p)
      invariant forall n, p :: !IsTrue(m, n, p)
      invariant forall vm :: vm in vms <==> IsFound(nodeVolumes.Keys - rest, found, vm)
    {
      var node :| node in rest;
      m := EnterNode(nodeVolumes, node, m);
      FoundOneMore(nodeVolumes.Keys - rest, found, vms, node);
      if node in found { vms := vms + [found[node]]; }
      assert nodeVolumes.Keys - rest + {node} == nodeVolumes.Keys - (rest - {node});
      rest := rest - {node};
    }
    assert nodeVolumes.Keys - rest == nodeVolumes.Keys;
  }

  lemma FoundOneMore(nodes: set<string>, found: map<string, VM>, vms: seq<VM>, node: string)
    requires forall vm :: vm in vms <==> IsFound(nodes, found, vm)
    ensures forall vm ::
              vm in (if node in found then vms + [found[node]] else vms) <==> IsFound(nodes + {node}, found, vm)
  {
    forall vm ensures IsFound(nodes + {node}, found, vm) <==>
                      IsFound(nodes, found, vm) || (node in found && found[node] == vm) {
      if node in found && found[node] == vm { assert node in nodes + {node}; }
      if IsFound(nodes, found, vm) {
        var k :| k in nodes && k in found && found[k] == vm;
        assert k in nodes + {node};
      }
    }
  }

  method VerifyVMs(nodeVolumes: map<string, seq<string>>, vms: seq<VM>, m: Attached) returns (m': Attached)
    requires forall n, p :: Entered(m, n, p) <==> Requested(nodeVolumes, n, p)
    requires forall n, p :: !IsTrue(m, n, p)
    ensures forall n, p :: Entered(m', n, p) <==> Requested(nodeVolumes, n, p)
    ensures forall n, p :: IsTrue(m', n, p) <==>
              Requested(nodeVolumes, n, p) && exists vm | vm in vms :: Has(vm, n, p)
  {
    hide Entered, Requested, IsTrue, Has;
    m' := m;
    for i := 0 to |vms|
      invariant forall n, p :: Entered(m', n, p) <==> Requested(nodeVolumes, n, p)
      invariant forall n, p :: IsTrue(m', n, p) <==>
                  Requested(nodeVolumes, n, p) && exists vm | vm in vms[..i] :: Has(vm, n, p)
    {
      assert vms[..i + 1] == vms[..i] + [vms[i]];
      m' := VerifyVM(nodeVolumes, vms[i], m');
    }
    assert vms[..|vms|] == vms;
  }

  /** A machine was found for some node that has the name n and a disk backed by exactly that file. */
  ghost predicate IsBacked(nodeVolumes: map<string, seq<string>>, found: map<string, VM>, n: string, p: string) {
    exists k | k in nodeVolumes && k in found ::
      found[k].name == n && found[k].config.Some? && FlatDisk(p) in found[k].config.value
  }

  /** The answer, entry by entry. */
  lemma EntryByEntry(nodeVolumes: map<string, seq<string>>, found: map<string, VM>, m: Attached)
    requires forall n, p :: Entered(m, n, p) <==> Requested(nodeVolumes, n, p)
    requires forall n, p :: IsTrue(m, n, p) <==>
               Requested(nodeVolumes, n, p) && exists vm :: IsFound(nodeVolumes.Keys, found, vm) && Has(vm, n, p)
    ensures forall n, p :: (n in m && p in m[n]) <==> n in nodeVolumes && p in nodeVolumes[n]
    ensures forall n, p | n in m && p in m[n] :: m[n][p] <==> IsBacked(nodeVolumes, found, n, p)
  {
    forall n, p ensures (n in m && p in m[n]) <==> n in nodeVolumes && p in nodeVolumes[n] {
      assert Entered(m, n, p) <==> Requested(nodeVolumes, n, p);
    }
    forall n, p | n in m && p in m[n] ensures m[n][p] <==> IsBacked(nodeVolumes, found, n, p) {
      assert Entered(m, n, p) && (m[n][p] <==> IsTrue(m, n, p));
      if k :| k in nodeVolumes && k in found && Has(found[k], n, p) {
        assert IsFound(nodeVolumes.Keys, found, found[k]);
      }
      if vm :| IsFound(nodeVolumes.Keys, found, vm) && Has(vm, n, p) {
        var k :| k in nodeVolumes.Keys && k in found && found[k] == vm;
        assert k in nodeVolumes;
      }
    }
  }

  /**
   found holds the virtual machine a node's path leads to, where that look-up succeeds; fails
   says that fetching the properties of those machines does.  Every requested pair gets an
   answer, and it is true exactly when a machine that was found has the node's name and a disk
   backed by exactly that file.
   */
  method CheckDisksAttached(nodeVolumes: map<string, seq<string>>, found: map<string, VM>, fails: bool)
    returns (r: Result<Attached, Fault>)
    ensures r.Err? <==> fails && exists k :: k in nodeVolumes && k in found
    ensures r.Ok? ==> forall n, p :: (n in r.value && p in r.value[n]) <==> n in nodeVolumes && p in nodeVolumes[n]
    ensures r.Ok? ==> forall n, p | n in r.value && p in r.value[n] ::
              r.value[n][p] <==> IsBacked(nodeVolumes, found, n, p)
  {
    hide Entered, Requested, IsTrue, Has, IsFound, IsBacked;
    var m, vms := EnterNodes(nodeVolumes, found);
    FoundMeans(nodeVolumes, found, vms);
    if |vms| == 0 {
      assert forall vm :: vm !in vms && !IsFound(nodeVolumes.Keys, found, vm);
      EntryByEntry(nodeVolumes, found, m);
      return Ok(m);
    }
    assert vms[0] in vms;
    if fails { return Err(PropertiesUnavailable); }
    m := VerifyVMs(nodeVolumes, vms, m);
    EntryByEntry(nodeVolumes, found, m);
    return Ok(m);
  }

  lemma FoundMeans(nodeVolumes: map<string, seq<string>>, found: map<string, VM>, vms: seq<VM>)
    requires forall vm :: vm in vms <==> IsFound(nodeVolumes.Keys, found, vm)
    ensures |vms| > 0 <==> exists k :: k in nodeVolumes && k in found
  {
    if vms != [] { assert IsFound(nodeVolumes.Keys, found, vms[0]); }
    if k :| k in nodeVolumes && k in found { assert IsFound(nodeVolumes.Keys, found, found[k]); }
  }
}
