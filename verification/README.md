# vSphere cloud provider: a verified model

This project models the stateful parts of the Kubernetes cloud provider and CSI driver for
vSphere and proves what they promise over all inputs, runs and schedules.

- **Parallel search** (`SearchPool`, `SearchPoolInvariant`, `SearchPoolProgress`,
  `SearchPoolReports`, `SearchPoolLeak`): one producer walks vCenters and datacenters and feeds a bounded channel,
  eight workers drain it and race to publish a hit, the caller joins on the workers only. The
  program is a state machine; a schedule is any sequence of its steps. The same machine serves
  the node, the disk and the cluster (zone) search.
- **SCSI slots** (`DiskPath`, `DiskPathRewriting`, `DiskPathExact`, `ScsiBus`, `VirtualMachine`,
  `DiskPlacement`): attaching and detaching disks over a device list that changes under the source's
  hands, with every external call free to fail.
- **Volume life cycle and listing** (`FcdLifecycle`, `FcdRequests`, `FcdListing`, `FcdListingExact`,
  `ListTokens`): an idempotent named store and a token-paged view of a sorted list, after
  "CreateVolume", "DeleteVolume" and "ListVolumes" of the Container Storage Interface specification
  v1.0.0. Deletion calls the parallel search.
- **Node mounts** (`NodeMounts`, `MountRequests`): stage, publish, unpublish and unstage over one mount table,
  after "Node Service RPC" of the same specification.
- **Zone tags** (`ZoneTags`, `ZoneSearch`): the order-sensitive resolution of a zone and a region,
  and the parallel search for a cluster by them.
- **Credentials** (`Credentials`, `CredentialsServed`): secrets parsed in arbitrary map order into a cache.
- **Node manager** (`NodeManager`): three indices over the same nodes, and their export.
- **Attachment check** (`VolumeCheck`): two ways of checking which volumes a machine has.

`Wrappers`, `Strings` and `Sequences` hold what these share. Code that updates state in place
is a class or a method with the source's loops, proved against a specification function; the
main theorems are lemmas about those functions. Besides invariants, round trips and refinements
they say, for each main operation and whichever of its calls fail, what comes out in terms of the
request and the state alone (`OutcomeExactly` and `AttachedDisk`, `CreateExact` and `DeleteExactly`,
`StageExact` to `UnpublishExactly`, `ChainDecides`, `NewSecretIsServed`, `ExportTells`).
`dafny verify dfyconfig.toml` checks everything.

Some properties one would expect are false of the code. Each has a lemma that gives or builds
an input where it fails, and one that says exactly when it holds:

- a failed attach can take away a controller it did not add, or leave one behind
  (`FailedAttachTakesOldController`, `FailedAttachKeepsNewController`, `RollbackExact`);
- of the three SCSI types the source accepts only "pvscsi" can ever be attached, because the
  device library reports and creates types under lower-case names (`MixedCaseNeverAttaches`,
  `AttachExact`);
- normalising a path twice differs from once for an empty datastore name and for a name that also
  stands before its brackets (`EmptyNameDrifts`, `NameInFrontDrifts`, `NormalizeIdempotent`);
- the nearest zone tag does not always win (`FartherZoneWins`, `NearestRule`);
- a secret that failed to parse is served on the next request (`RetryServesIncomplete`,
  `RetryServesExactly`);
- a parse depends on the order of the map when keys of one server and field disagree, or when one
  key is unknown and another says something new (`TypoMakesOrderMatter`, `OrderIndependence`);
- a listing leaves out the disks of datacenters with datastore clusters (`ClustersHideDisks`,
  `ListingCompleteExactly`), and depends on the order of the maps when disks are on datastores
  whose names differ in case only or share an ID (`ListingDeterminedExactly` builds both lists);
- a look-up that fails in passing makes a create duplicate a name (`FailingLookupDuplicatesName`,
  `NamesStayUnique`), and a delete report success with the volume still there
  (`SilentFailureKeepsVolume`, `DeleteExact`);
- an unpublish that is retried after a failing directory removal leaves the directory
  (`RetryKeepsTarget`, `UnpublishExact`);
- a machine discovered at two places is exported twice (`MovedNodeIsListedTwice`,
  `ListedOnceExactly`);
- the producer of a search can be left blocked forever (`ProducerCanBeLeftBehind`,
  `LeftBehindExactly`).

Documentation and code disagree where a datacenter has datastore clusters: the listing is
documented to return all known disks (datacenter.go:543), but an early return makes it empty and
reports no error (`GetAllFirstClassDisks`, `DatacenterCompleteExactly`).

## Model

| member | source | states |
|---|---|---|
| `SearchPoolInvariant.InitHolds` | pkg/common/connectionmanager/search.go:63-92 | A search starts in a state where the whole inventory is still ahead, nothing is queued and nothing is found. |
| `SearchPoolInvariant.TicketIsGenuine` | pkg/common/connectionmanager/search.go:148-163 | Whatever sits in the channel, in a worker's hand or among the processed items is the item the walk produced at that position. |
| `SearchPoolInvariant.ProducerItems` | pkg/common/connectionmanager/search.go:94-155 | A producer step neither skips nor repeats an item: sent so far plus still to send is unchanged, as long as it does not leave because of a hit. |
| `SearchPoolInvariant.ProducerErrors` | pkg/common/connectionmanager/search.go:104-138 | A producer step records exactly the next error of the walk, or none and drops none. |
| `SearchPoolInvariant.ProducerKeepsTickets` | pkg/common/connectionmanager/search.go:148-151 | Sending keeps each item in exactly one of channel, hand, processed, and the channel within its capacity. |
| `SearchPoolInvariant.WorkerKeepsTickets` | pkg/common/connectionmanager/search.go:161-198 | Receiving, looking up and leaving keep each item in exactly one of channel, hand, processed. |
| `SearchPoolInvariant.WorkerKeepsOutcomes` | pkg/common/connectionmanager/search.go:165-198 | After a worker step the result cell, if set, holds a hit of the inventory, the error cell an error of it, and no hit or fault seen so far is forgotten. |
| `SearchPoolInvariant.WorkerKeepsExits` | pkg/common/connectionmanager/search.go:161-200 | Without a published hit a worker has left only if the channel is closed and empty. |
| `SearchPoolInvariant.StepKeepsInv` | pkg/common/connectionmanager/search.go:94-200 | Every step of every actor keeps the whole invariant (walk, tickets, outcomes, exits). |
| `SearchPoolInvariant.RunKeepsInv` | pkg/common/connectionmanager/search.go:94-200 | Every schedule keeps the invariant. |
| `SearchPoolInvariant.JoinWithoutHit` | pkg/common/connectionmanager/search.go:153-203 | Past the join without a hit: channel closed and drained, everything the full walk lists was sent, and each item was looked up exactly once. |
| `SearchPoolInvariant.JoinedAnswer` | pkg/common/connectionmanager/search.go:202-211 | Past the join the found flag is up exactly when a result is stored, and the answer is one the sequential scan justifies: a hit beats every error, an error beats not-found. |
| `SearchPoolProgress.StepLowers` | pkg/common/connectionmanager/search.go:93-201 | Every step strictly lowers a measure over remaining vCenters, attempts, datacenters, channel and workers. |
| `SearchPoolProgress.SchedulesAreBounded` | pkg/common/connectionmanager/search.go:93-201 | No schedule is longer than the measure of its first state. |
| `SearchPoolProgress.LiveWorkerMeansProgress` | pkg/common/connectionmanager/search.go:153-202 | In every state that keeps the invariant, while a worker lives some actor can move, even with a full channel. |
| `SearchPoolProgress.StuckMeansJoined` | pkg/common/connectionmanager/search.go:148-202 | Nothing can move exactly when the caller is past the join and the producer has closed the channel or is blocked sending on a full one; the latter takes a published hit. Which inventories lead there is said by `LeftBehindExactly`. |
| `SearchPoolProgress.EveryScheduleAnswers` | pkg/common/connectionmanager/search.go:93-211 | Every schedule that reaches the join gives an answer justified by one pass over the inventory. |
| `SearchPoolProgress.NotFoundIsComplete` | pkg/common/connectionmanager/search.go:93-211 | A not-found answer means every vCenter was connected and fully enumerated, every item was looked up exactly once, and each lookup missed or failed in the one way workers drop. |
| `SearchPoolProgress.NotFoundExactly` | pkg/common/connectionmanager/search.go:93-211 | Every schedule answers not-found if and only if every vCenter refuses fewer than three connection attempts and lists everything without an error, and every item misses or fails in the way workers drop. |
| `SearchPoolProgress.EveryMaximalScheduleJoins` | pkg/common/connectionmanager/search.go:93-202 | Schedules are finite, and one that cannot be extended has returned to the caller. |
| `SearchPoolProgress.PermutedWorlds` | pkg/common/connectionmanager/search.go:95-97 | Walking the vCenter map in another order leaves the multisets of hits and of errors unchanged. |
| `SearchPoolProgress.OrderAndScheduleIndependence` | pkg/common/connectionmanager/search.go:321-359 | Two searches of one inventory, in any map orders and schedules, give the same kind of answer, and the very same one when there is a single hit. |
| `SearchPoolProgress.PushesAfterFound` | pkg/common/connectionmanager/zones.go:248-276 | Once the flag is up the producer sends at most the items of the datacenter it already checked the flag for. |
| `SearchPoolProgress.AtMostOneMorePush` | pkg/common/connectionmanager/search.go:305-318 | In node and disk searches at most one more item is sent after the flag is up. |
| `SearchPoolProgress.Search` | pkg/common/connectionmanager/search.go:215-359 | The call returns under a free scheduler; an empty ID is not found, any other answer is justified by the inventory. |
| `SearchPoolLeak.RunKeepsLeave` | pkg/common/connectionmanager/search.go:160-200 | In every schedule the channel is first in, first out, and while it is open as many workers have left or are leaving as hits have been looked up. |
| `SearchPoolLeak.LeftBehindExactly` | pkg/common/connectionmanager/search.go:148-204 | Some schedule lets the caller return and leaves the producer blocked forever if and only if the inventory lists more than eighty items after its eighth hit. |
| `SearchPoolLeak.SmallInventoriesFinish` | pkg/common/connectionmanager/search.go:93-204 | With at most 88 items, every schedule that cannot be extended ends with the producer finished. |
| `SearchPoolLeak.ProducerCanBeLeftBehind` | pkg/common/connectionmanager/zones.go:248-276 | One datacenter with 89 matching clusters is such an inventory. |
| `SearchPoolReports.LastErrorIsReported` | pkg/common/connectionmanager/search.go:74-78 | Under every schedule a search without a hit meets each error of the walk and of the look-ups exactly once, and answers with the one met last, or with not-found if there is none. |
| `SearchPoolReports.LastHitIsReported` | pkg/common/connectionmanager/search.go:192-205 | Under every schedule a search that finds something names the last of all hits that were looked up. |
| `DiskPath.BackingMatches` | pkg/common/vclib/virtualmachine.go:407-412 | A new disk's file matches exactly the paths that match the path it was attached with. |
| `DiskPathExact.MatchesExactly` | pkg/common/vclib/virtualmachine.go:407-412 | Two paths name one file if and only if they are equal, or one is the other with ".vmdk" and that one lacks it. |
| `DiskPathExact.BackingExactly` | pkg/common/vclib/virtualmachine.go:278 | A new disk's file is the path, with ".vmdk" unless it ends so or is empty. |
| `DiskPath.BaseFacts` | pkg/common/vclib/utils.go:129-135 | The base name of a non-empty name is non-empty, its own base name, and made of the name's characters. |
| `DiskPathExact.BaseExactly` | pkg/common/vclib/utils.go:131 | The base name is what stands between the last slash and the slashes at the end; "/" for slashes only, "." for nothing. |
| `DiskPathExact.DatastoreExactly` | pkg/common/vclib/utils.go:130 | A path has a datastore if and only if some bracket is closed on its line, and it is what the first such bracket holds up to the first closing one. |
| `DiskPath.NormalizeShape` | pkg/common/vclib/utils.go:129-135 | Normalising "[cluster/ds] rest" replaces exactly the bracketed name by its base name. |
| `DiskPath.EmptyNameDrifts` | pkg/common/vclib/utils.go:129-135 | With an empty bracketed name every normalisation puts another dot in front. |
| `DiskPath.LeadingDatastoreIdempotent` | pkg/common/vclib/utils.go:129-135 | For paths that begin with a bracketed datastore, normalising twice is normalising once if and only if the name is not empty. |
| `DiskPathRewriting.NormalizeKeepsDatastore` | pkg/common/vclib/utils.go:129-135 | Normalising any path that has a bracketed datastore gives one that has one, so normalising again never crashes. |
| `DiskPathRewriting.NormalizeChanges` | pkg/common/vclib/utils.go:131-133 | A path stays as it is if and only if its datastore is its own base name. |
| `DiskPathExact.NormalizeExactly` | pkg/common/vclib/utils.go:129-135 | Where the datastore is not its own base name, the first place in the path where that name stands, and nothing else, becomes the base name. |
| `DiskPathRewriting.NormalizeIdempotent` | pkg/common/vclib/utils.go:129-135 | For every path with a bracketed datastore, normalising twice is normalising once if and only if the name is its own base name, or is not empty and occurs nowhere in the path before its brackets. |
| `DiskPathRewriting.NameInFrontDrifts` | pkg/common/vclib/utils.go:129-135 | A path whose datastore name also stands before the brackets is rewritten there instead. |
| `ScsiBus.LowestFreeIsLowest` | pkg/common/vclib/utils.go:89-108 | The unit chosen is free and no lower one is; none is chosen only when no slot is free. |
| `ScsiBus.RoomMeansFreeSlot` | pkg/common/vclib/utils.go:78-108 | Pigeonhole: a controller with fewer than fifteen devices has a free slot other than the reserved one. |
| `ScsiBus.GetSCSIControllersOfType` | pkg/common/vclib/utils.go:63-75 | The loop finds the controllers of a type, in list order. |
| `ScsiBus.GetSCSIControllers` | pkg/common/vclib/utils.go:111-124 | The loop finds the SCSI controllers of every counted type, in list order. |
| `ScsiBus.GetAvailableSCSIController` | pkg/common/vclib/utils.go:78-86 | The loop finds the first controller with fewer than fifteen devices. |
| `ScsiBus.GetNextUnitNumber` | pkg/common/vclib/utils.go:89-108 | The boolean array yields the lowest free slot. |
| `DiskPlacement.LoadCounts` | pkg/common/vclib/utils.go:81 | The load of a controller is the number of devices of the list on its bus. |
| `DiskPlacement.ScsiCounts` | pkg/common/vclib/utils.go:111-124 | The SCSI controllers counted against the limit are those of the five type names. |
| `DiskPlacement.AvailableIsFirst` | pkg/common/vclib/utils.go:78-86 | The controller chosen is the first of the type in the list with fewer than fifteen devices, and none only if all have fifteen. |
| `DiskPlacement.AttachedDisk` | pkg/common/vclib/virtualmachine.go:246-304 | A successful attach adds one disk, with the file of the path and a new key, on the lowest unit in 0..15 without 7 that no other device of its controller has. That controller is the first of the requested type with fewer than fifteen devices, a new one exactly where none has room, and ends with one device more. |
| `DiskPlacement.OutcomeExactly` | pkg/common/vclib/virtualmachine.go:63-155 | For every combination of failing calls, when an attach succeeds, when it finds the disk attached and when it fails, by the type, the disks and the free places of the list. |
| `DiskPlacement.FoundIsFirst` | pkg/common/vclib/virtualmachine.go:361-381 | The disk found by its path is the first of that file in the list. |
| `DiskPlacement.DetachExactly` | pkg/common/vclib/virtualmachine.go:158-178 | A detach takes the one disk of the path out, wherever it stands, and leaves the rest of the list in place; if there is none, or a call fails, nothing changes. |
| `DiskPlacement.CleanUpExactly` | pkg/common/vclib/virtualmachine.go:415-427 | A clean-up by the list as it is takes the last controller of the type out and leaves the rest in place. |
| `VirtualMachine.PlaceIsFree` | pkg/common/vclib/virtualmachine.go:246-304 | Wherever a disk is placed, possibly by a stale list, the slot is free on a controller of the requested type with room. |
| `VirtualMachine.PlacedDisk` | pkg/common/vclib/virtualmachine.go:63-79 | The disk a request adds is what its path finds afterwards, and nothing found it before. |
| `VirtualMachine.AttachKeepsWellFormed` | pkg/common/vclib/virtualmachine.go:63-155 | Whatever fails, an attach keeps units distinct and in 0..15 without 7, controllers within fifteen devices, four SCSI controllers at most, and no two disks of one file. |
| `VirtualMachine.DetachKeepsWellFormed` | pkg/common/vclib/virtualmachine.go:158-178 | Whatever fails, a detach keeps all of that. |
| `VirtualMachine.RunKeepsWellFormed` | pkg/common/vclib/virtualmachine.go:63-178 | Every run of attaches and detaches with any failures keeps all of that. |
| `VirtualMachine.AttachExact` | pkg/common/vclib/virtualmachine.go:246-284 | Without faults a new disk is refused if and only if the machine is full for the type or the type is not "pvscsi"; a refusal changes nothing. |
| `VirtualMachine.AttachTwice` | pkg/common/vclib/virtualmachine.go:63-79 | Attaching an attached path again, also under its other spelling, changes nothing. |
| `VirtualMachine.AttachThenDetach` | pkg/common/vclib/virtualmachine.go:63-178 | Attach then detach gives back the device list, plus one empty controller exactly when one had to be created. |
| `VirtualMachine.RollbackExact` | pkg/common/vclib/virtualmachine.go:98-153 | Whatever fails, the clean-up calls included, a failed attach restores the device list if and only if it is not one of the exits that leave a trace: those around the creation of a controller, a clean-up call that fails, and a clean-up that looks for another path than the new disk's. |
| `VirtualMachine.CleanUpFindsDisk` | pkg/common/vclib/virtualmachine.go:145-152 | For a path that begins with a named datastore the clean-up looks for the disk that was added. |
| `VirtualMachine.FailedAttachTakesOldController` | pkg/common/vclib/virtualmachine.go:344-357 | A well-formed machine on which a failed attach, of any path, removes a controller it did not add, from under fifteen devices. |
| `VirtualMachine.FailedAttachKeepsNewController` | pkg/common/vclib/virtualmachine.go:106-110 | A machine on which a failed attach, of any path, leaves its new controller behind, here and where the list cannot be read again (lines 263-267). |
| `VirtualMachine.MixedCaseNeverAttaches` | pkg/common/vclib/virtualmachine.go:65-67 | Every machine, with room or without, refuses any new disk on "lsiLogic" and "lsiLogic-sas", which the source lists as valid types, and stays as it is. |
| `VirtualMachine.NewControllerIsChosen` | pkg/common/vclib/virtualmachine.go:257-277 | When all controllers of the type were full, the one just added is the one found with room. |
| `VirtualMachine.VM.AddDevice` | pkg/common/vclib/virtualmachine.go:112-129 | Adding puts the device at the end of the list under a fresh key. |
| `VirtualMachine.VM.RemoveDevice` | pkg/common/vclib/virtualmachine.go:415-427 | Removing takes exactly the devices of that key out. |
| `VirtualMachine.VM.GetVirtualDeviceByPath` | pkg/common/vclib/virtualmachine.go:361-381 | The loop finds the first disk whose file matches the path. |
| `VirtualMachine.VM.DeleteController` | pkg/common/vclib/virtualmachine.go:415-427 | Removes the last controller of the type in the list it is given, from the machine as it is now. |
| `VirtualMachine.VM.DetachDisk` | pkg/common/vclib/virtualmachine.go:158-178 | Removes the disk of the normalised path; a disk that is not there counts as removed. |
| `VirtualMachine.VM.CreateAndAttachSCSIController` | pkg/common/vclib/virtualmachine.go:326-358 | Adds a controller unless four exist, with the clean-up it does when that fails. |
| `VirtualMachine.VM.CreateDiskSpec` | pkg/common/vclib/virtualmachine.go:246-304 | Chooses controller and unit as specified, creating a controller where needed. |
| `VirtualMachine.VM.AttachDisk` | pkg/common/vclib/virtualmachine.go:63-155 | Does what the specification of an attach says, and keeps the machine well formed; `AttachedDisk`, `OutcomeExactly` and `RollbackExact` say what that is. |
| `ListTokens.TokenRoundTrip` | pkg/csi/service/fcd/controller.go:424-446 | Parsing the decimal token of a position gives the position back, over the whole range of an int. |
| `ListTokens.AtoiExactly` | pkg/csi/service/fcd/controller.go:424 | A token is read as a number if and only if it spells it, with an optional sign and leading zeros, within the range of a 64-bit int; anything else is refused. |
| `ListTokens.ValueIsPositional` | pkg/csi/service/fcd/controller.go:446 | Digits count by their place, the most significant first. |
| `FcdListing.ExistsInList` | pkg/common/vclib/utils.go:213-224 | Membership, with or without regard to case. |
| `FcdListing.DatastoreOrderMatters` | pkg/common/vclib/datacenter.go:580-596 | The disks of a datacenter do not depend on the order of its datastore map if and only if no disk is on a datastore that shares its name, up to case, with another. |
| `FcdListing.GatheredIsAll` | pkg/common/vclib/datacenter.go:580-596 | Where no disk is on such a datastore, any order gathers every listed disk. |
| `FcdListing.GatheredOnce` | pkg/common/vclib/datacenter.go:580-596 | No disk is gathered twice. |
| `FcdListing.GetAllFirstClassDisks` | pkg/common/vclib/datacenter.go:544-597 | Walks the datastores in some order and gathers each name's first datastore; with datastore clusters present it answers an empty list and no error. |
| `FcdListing.GatherVCenter` | pkg/csi/service/fcd/vsphere_helper.go:87-117 | Three connection attempts, then what its datacenters give, one after the other; nothing when it cannot be reached. |
| `FcdListing.SortByIdDescending` | pkg/csi/service/fcd/vsphere_helper.go:121-123 | A permutation, greatest ID first. |
| `FcdListing.LessExactly` | pkg/csi/service/fcd/vsphere_helper.go:121-123 | One ID is less than another if and only if it is a proper prefix or has the smaller character where they first differ. |
| `FcdListing.GreatestFirst` | pkg/csi/service/fcd/vsphere_helper.go:121-123 | In no list the inventory may give does a disk come after one whose ID is smaller in that order. |
| `FcdListing.GetAllFCDs` | pkg/csi/service/fcd/vsphere_helper.go:85-126 | A sorting, greatest ID first, of what the vCenters give in some order of the map. |
| `FcdListing.ListVolumes` | pkg/csi/service/fcd/controller.go:413-483 | The page that token and limit ask for of some list the inventory may give, or the error for a bad token. |
| `FcdListing.PageFacts` | pkg/csi/service/fcd/controller.go:421-451 | A page past the end is refused; any other holds as many disks from its start as the limit allows or are left, and hands on a token for the place right after it if and only if there is a limit, smaller than the list, and at least that many were left. |
| `FcdListing.WalkCoversList` | pkg/csi/service/fcd/controller.go:421-480 | Following the tokens from any position, with any limits, gives the rest of the list in order, nothing missing or repeated. |
| `FcdListing.WalkKeepsLimits` | pkg/csi/service/fcd/controller.go:421-480 | The walk ends after at most one page per disk and one more; no page exceeds its limit and only the last may be empty. |
| `FcdListingExact.MayListIsListing` | pkg/csi/service/fcd/vsphere_helper.go:85-126 | With disk IDs distinct and no disk on a datastore that shares its name, any walk lists each disk of the datacenters without datastore clusters once, greatest ID first. |
| `FcdListingExact.ListingIsUnique` | pkg/csi/service/fcd/vsphere_helper.go:85-126 | Two such listings of one inventory are the same list. |
| `FcdListingExact.DatacenterCompleteExactly` | pkg/common/vclib/datacenter.go:543-597 | A datacenter's listing holds all its disks, in every order, if and only if it has none, or it has no datastore clusters and no disk on a datastore that shares its name, up to case, with another. |
| `FcdListingExact.ListingCompleteExactly` | pkg/common/vclib/datacenter.go:543-597 | The listing of all vCenters holds every disk, in all orders, if and only if that is so of every datacenter that is reached. |
| `FcdListingExact.ClustersHideDisks` | pkg/common/vclib/datacenter.go:545-549 | A datacenter with a datastore cluster whose disk no listing holds. |
| `FcdListingExact.ListingDeterminedExactly` | pkg/csi/service/fcd/vsphere_helper.go:85-126 | Two calls list the same in all orders of the maps if and only if no disk is on a datastore that shares its name with another and no two listed disks share an ID. |
| `FcdListingExact.PagesAreStable` | pkg/csi/service/fcd/controller.go:413-483 | Two calls made in different map orders then answer a token with the same page. |
| `FcdLifecycle.SizeIsTight` | pkg/csi/service/fcd/controller.go:145-150 | A volume is a whole number of GiB, at least the bytes requested and less than one GiB more, ten GiB where none or zero are; its size is reported exactly (line 250) if and only if rounding up stays in the range of an int64. |
| `FcdLifecycle.ReportedModulo` | pkg/csi/service/fcd/controller.go:250 | A size out of that range is reported modulo 2^64. |
| `FcdRequests.CreateExact` | pkg/csi/service/fcd/controller.go:112-257 | For every combination of failing calls, by the request, the disks and the parents: a name on the parent is answered with a disk of that name or refused for its size; a new one fails without a parent or when its creation does, and else adds exactly one disk on the parent with the name, the ID and the size requested. |
| `FcdRequests.CreatedAsAsked` | pkg/csi/service/fcd/controller.go:145-257 | Without faults a new name gets a volume whose reported capacity is at least the bytes requested, less than one GiB more and whole GiB, or ten GiB. |
| `FcdLifecycle.CreateRefinesMap` | pkg/csi/service/fcd/controller.go:206-257 | Without faults a create is an insertion into a map from (datacenter, datastore, name): an existing name returns its volume or is refused by its rounded size and changes nothing, a new one is added once. |
| `FcdLifecycle.CreateTwice` | pkg/csi/service/fcd/controller.go:206-257 | Repeating a create gives the same volume and adds nothing when the sizes round alike, and is refused otherwise. |
| `FcdLifecycle.NamesStayUnique` | pkg/csi/service/fcd/controller.go:206-226 | Under faults IDs stay unique, and names are unique afterwards if and only if they were before and no failing look-up hides a volume of that name where the new one is put. |
| `FcdLifecycle.FailingLookupDuplicatesName` | pkg/csi/service/fcd/controller.go:206-222 | A create whose look-up fails in passing gives a datastore two volumes of one name. |
| `FcdLifecycle.DeleteExact` | pkg/csi/service/fcd/controller.go:259-298 | A failing delete changes nothing; after one that succeeds the volume is gone if and only if it was not overlooked, that is, its datastore could be listed and its datacenter is configured. |
| `FcdRequests.DeleteExactly` | pkg/csi/service/fcd/controller.go:259-298 | For every combination of failing look-ups: a delete takes exactly the disks of the ID out if and only if one of them is at a configured datacenter that can be reached and listed and the removal works; its answer says whether, and which failure was noticed. |
| `FcdLifecycle.SilentFailureKeepsVolume` | pkg/common/vclib/datacenter.go:600-617 | One datastore that cannot be listed, and a delete reports success with the volume still there. |
| `FcdLifecycle.DeleteRefinesMap` | pkg/csi/service/fcd/controller.go:259-298 | Without faults a delete removes exactly the volume of that ID and may be repeated. |
| `FcdLifecycle.RunsKeepIdsUnique` | pkg/csi/service/fcd/controller.go:112-298 | Every run of creates and deletes, whatever fails, keeps IDs unique. |
| `FcdLifecycle.RunsStayUnique` | pkg/csi/service/fcd/controller.go:112-298 | Every run in which no create's look-up fails, whatever else does, keeps names and IDs unique. |
| `FcdLifecycle.SearchFindsDisk` | pkg/csi/service/fcd/controller.go:270-279 | Under every schedule the parallel search names a datacenter of the disk if and only if one that can be asked has it on a datastore that can be listed, and else fails if and only if some failure is reported. |
| `FcdLifecycle.OneSite` | pkg/common/vclib/datacenter.go:620-661 | Deleting at the datacenter found is deleting everywhere. |
| `FcdLifecycle.Controller.GetFirstClassDisk` | pkg/common/vclib/datacenter.go:509-541 | The nested loops find the first disk of that name on the parent's datastores, in order. |
| `FcdLifecycle.Controller.CreateVolume` | pkg/csi/service/fcd/controller.go:112-257 | Does what the specification of a create says; names stay unique exactly as stated above. |
| `FcdLifecycle.Controller.RemoveDisk` | pkg/common/vclib/datacenter.go:620-661 | Removes the disks of that ID at one datacenter. |
| `FcdLifecycle.Controller.DeleteVolume` | pkg/csi/service/fcd/controller.go:259-298 | Searches in parallel and removes what was found, with the failures of the look-ups and of the deletion; the outcome does not depend on the schedule. |
| `NodeMounts.StageKeepsInv` | pkg/csi/service/node.go:95-151 | Whatever fails, staging keeps mount paths distinct and every mounted device mounted at its staging path. |
| `NodeMounts.UnstageKeepsInv` | pkg/csi/service/node.go:167-213 | So does unstaging, because it refuses while more than one mount exists. |
| `NodeMounts.PublishKeepsInv` | pkg/csi/service/node.go:272-319 | So does publishing. |
| `NodeMounts.UnpublishKeepsInv` | pkg/csi/service/node.go:340-379 | So does unpublishing. |
| `NodeMounts.RunsKeepInv` | pkg/csi/service/node.go:43-380 | Every run of the four requests in which volumes keep to their own paths keeps mount paths distinct and every published device staged. |
| `NodeMounts.RequestTwice` | pkg/csi/service/node.go:43-380 | A request that succeeded succeeds again and changes neither table nor directories. |
| `NodeMounts.UnstageExact` | pkg/csi/service/node.go:167-213 | Without faults a staged volume is unstaged if and only if it is published nowhere; then exactly its mounts are gone, otherwise nothing changes. |
| `MountRequests.StageExact` | pkg/csi/service/node.go:43-153 | Without faults a stage succeeds if and only if the device is attached, the capability mountable, the target a directory, and either nothing of the device is mounted or its first mount on the target has the requested mode; a refusal changes nothing. |
| `MountRequests.StageExactly` | pkg/csi/service/node.go:43-153 | For every combination of failing calls, the reply of a stage and the one mount it may add. |
| `MountRequests.UnstageExactly` | pkg/csi/service/node.go:155-213 | For every combination of failing calls: an unstage takes one mount off the target if and only if it is the only mount of its device; with nothing mounted there it succeeds. |
| `MountRequests.PublishExactly` | pkg/csi/service/node.go:215-320 | For every combination of failing calls: a publish makes and keeps the target directory, refuses a device that is mounted nowhere, answers a target that has the device by the mode of its first mount there, and else adds one mount of what is mounted on the staging path. |
| `MountRequests.UnpublishExactly` | pkg/csi/service/node.go:322-380 | For every combination of failing calls: an unpublish takes one mount off the target and the directory away, refuses when a second mount keeps it busy, and changes nothing where nothing is mounted. |
| `NodeMounts.UnpublishExact` | pkg/csi/service/node.go:322-380 | After a successful unpublish of an existing target nothing is mounted on it, and its directory is gone if and only if it was absent or something was mounted on it. |
| `NodeMounts.RetryKeepsTarget` | pkg/csi/service/node.go:366-371 | Where removing the directory fails, the retry succeeds and leaves it there. |
| `NodeMounts.StageThenUnstage` | pkg/csi/service/node.go:43-213 | Staging an unmounted volume adds one mount, and unstaging takes it off. |
| `NodeMounts.PublishThenUnpublish` | pkg/csi/service/node.go:215-380 | Publishing on a fresh target adds one mount, and unpublishing takes it and the target directory away. |
| `NodeMounts.FullCycle` | pkg/csi/service/node.go:43-380 | Stage, publish, unpublish, unstage all succeed and restore the mount table; the whole node comes back if and only if the target did not exist before. |
| `NodeMounts.Service.GetDevMounts` | pkg/csi/service/node.go:577-593 | The loop finds all mounts of a device, in table order. |
| `NodeMounts.Service.GetDevFromMount` | pkg/csi/service/node.go:640-661 | The loop finds the device of the first mount on a path. |
| `NodeMounts.Service.NodeStageVolume` | pkg/csi/service/node.go:43-153 | Does what the specification of a stage says. |
| `NodeMounts.Service.NodeUnstageVolume` | pkg/csi/service/node.go:155-213 | Does what the specification of an unstage says. |
| `NodeMounts.Service.NodePublishVolume` | pkg/csi/service/node.go:215-320 | Does what the specification of a publish says. |
| `NodeMounts.Service.NodeUnpublishVolume` | pkg/csi/service/node.go:322-380 | The walk over a snapshot of the table unmounts the target once, whatever the table holds. |
| `ZoneTags.LookupZoneByMoref` | pkg/common/connectionmanager/zones.go:507-602 | The nested loops with their early exits answer from the readings up to the first moment both labels have a value. Where all tags can be read: without a region or a zone tag on the objects it says which is missing, else it names the two tags that decide. |
| `ZoneTags.ReadingsInPlace` | pkg/common/connectionmanager/zones.go:545-582 | The walk reads all tags of every object, in order, right after those of the objects nearer the leaf; an object whose tags cannot be listed is one failing reading at its place. |
| `ZoneTags.ChainDecides` | pkg/common/connectionmanager/zones.go:545-602 | Over the objects and their tags: a lookup succeeds if and only if both categories occur, and is answered by the nearest tag of one category and the last tag of the other before it. |
| `ZoneTags.FailsExactly` | pkg/common/connectionmanager/zones.go:551-595 | For any labels and faults, which error a failing lookup reports. |
| `ZoneTags.ReadTags` | pkg/common/connectionmanager/zones.go:553-582 | The tags of one object continue the walk or end it with the answer. |
| `ZoneTags.Needed` | pkg/common/connectionmanager/zones.go:578-580 | The number of readings made: the shortest prefix that holds both labels, or all. |
| `ZoneTags.NotedIsLast` | pkg/common/connectionmanager/zones.go:566-577 | For each label the value noted is that of its last tag so far; with equal labels the region is never noted. |
| `ZoneTags.LastNeededTagWins` | pkg/common/connectionmanager/zones.go:545-595 | A successful answer names, for each label, the last tag of the shortest prefix holding both. |
| `ZoneTags.SucceedsForAnyLabels` | pkg/common/connectionmanager/zones.go:545-595 | For any labels, empty or equal ones included, a lookup succeeds if and only if some fault-free prefix holds both, or the whole walk has no fault and leaves no given label without a value. |
| `ZoneTags.SucceedsExactly` | pkg/common/connectionmanager/zones.go:545-595 | With different labels a lookup succeeds if and only if some fault-free prefix holds both. |
| `ZoneTags.SucceedsWhenBothOccur` | pkg/common/connectionmanager/zones.go:545-595 | Without faults and empty tag names it succeeds if and only if both categories occur on the chain. |
| `ZoneTags.LabelFoundLastIsNearest` | pkg/common/connectionmanager/zones.go:566-580 | One of the two labels is always answered by its nearest tag. |
| `ZoneTags.NearestRule` | pkg/common/connectionmanager/zones.go:566-580 | For every successful lookup, each label gets its nearest tag if and only if the first and the last of its tags among the readings needed have the same name. |
| `ZoneTags.OnceAgrees` | pkg/common/connectionmanager/zones.go:566-580 | So it does when the label occurs once there; where no tag is attached twice, only then. |
| `ZoneTags.FartherZoneWins` | pkg/common/connectionmanager/zones.go:566-580 | A host whose own zone is overwritten by its cluster's because the region is only known higher up. |
| `ZoneSearch.CheckCluster` | pkg/common/connectionmanager/zones.go:283-307 | A worker drops a cluster whose tags do not resolve, and takes it for a hit if and only if its zone and region are those looked for, whatever the case. |
| `ZoneSearch.EveryScheduleFindsZone` | pkg/common/connectionmanager/zones.go:154-320 | Under every schedule the search finds a cluster in that zone and region if and only if the walk lists one, and names its datacenter; it reports that there is none only after a walk without failures. |
| `ZoneSearch.FoundMeansTagged` | pkg/common/connectionmanager/zones.go:286-296 | A cluster is found if and only if it can be asked, some fault-free beginning of its chain's readings holds both labels, and the last zone and region tags up to the moment both are known are those looked for, in any case. |
| `ZoneSearch.FoundByChain` | pkg/common/connectionmanager/zones.go:286-296 | Where all its tags can be read, the two tags that decide over the cluster's chain are those looked for. |
| `ZoneSearch.SearchZone` | pkg/common/connectionmanager/zones.go:154-320 | The whole call under a free scheduler; all four arguments have to be given. |
| `Credentials.AppliedFacts` | pkg/common/credentialmanager/credentialmanager.go:182-195 | After walking agreeing keys each field has its key's value, other fields their old one, and the servers are the old and the mentioned ones. |
| `CredentialsServed.KeyMeans` | pkg/common/credentialmanager/credentialmanager.go:182-195 | A key, in any case, is for the field it ends in and for the server named by what stands before the first ".username" or ".password", all of the key if there is none; it is unknown if and only if it ends in neither. |
| `CredentialsServed.KeysOfServer` | pkg/common/credentialmanager/credentialmanager.go:182-195 | The keys "server.username" and "server.password", in any case, are for that server if and only if its name does not contain the same ending. |
| `Strings.FoldsExactly` | pkg/common/credentialmanager/credentialmanager.go:183 | Folding identifies exactly the spellings of one string that differ in the case of letters, and gives the one without capitals. |
| `Credentials.UnknownKeyAlwaysReported` | pkg/common/credentialmanager/credentialmanager.go:196-199 | In every order the verdict is "unknown key" if and only if some key is unknown. |
| `Credentials.OrderIndependence` | pkg/common/credentialmanager/credentialmanager.go:178-208 | For every secret and cache: configuration and verdict are the same in all orders if and only if, without unknown keys, keys of one server and field agree on the value, and, with one, every known key says what is cached already. |
| `Credentials.TypoMakesOrderMatter` | pkg/common/credentialmanager/credentialmanager.go:196-199 | A secret with one unknown key whose other key is cached or not, depending on the order. |
| `Credentials.AppliedValue` | pkg/common/credentialmanager/credentialmanager.go:182-195 | After a walk without unknown keys each field has the value of its last key, or its old one. |
| `Credentials.SucceedsExactly` | pkg/common/credentialmanager/credentialmanager.go:178-208 | In each order, whether or not keys agree, a parse succeeds if and only if the secret is not empty, has no unknown key and the last keys, or else the cache, give every server, new or cached before, both fields. |
| `Credentials.ProvidedInAnyOrder` | pkg/common/credentialmanager/credentialmanager.go:182-195 | Where keys of one server and field agree, which of them is last does not matter. |
| `Credentials.ServersNeverShrink` | pkg/common/credentialmanager/credentialmanager.go:44-88 | Over any run of requests no cached server is ever lost. |
| `Credentials.LastParseDecides` | pkg/common/credentialmanager/credentialmanager.go:74-88 | Over any run from an empty cache: after a last parse that did not fail every cached server has both fields, and after one of a non-empty secret that failed for a missing field some cached server lacks one. |
| `Credentials.DeletedSecretChangesNothing` | pkg/common/credentialmanager/credentialmanager.go:46-64 | A request that finds the secret deleted is answered as if there were no secret to look up, and as one that finds the stored version still there; with no directory left to read it changes nothing. |
| `Credentials.RetryServesIncomplete` | pkg/common/credentialmanager/credentialmanager.go:80-87 | A secret whose parse failed is not parsed again at the same version, and the second request is served an empty password. |
| `Credentials.RetryServesExactly` | pkg/common/credentialmanager/credentialmanager.go:44-88 | For every new secret, parsed or not, and whatever orders its parses took: the next request at the same version is answered if and only if the server was cached or is named by a key walked before the first unknown one, and both fields are those of the last such keys, or else the cached ones. |
| `Credentials.RetryInAnyOrder` | pkg/common/credentialmanager/credentialmanager.go:44-88 | Without unknown keys and where keys agree, the orders do not matter: the answer comes if and only if the server was cached or is named by the secret, with each field filled if and only if the secret, or else the old cache, provides it. |
| `CredentialsServed.NewSecretIsServed` | pkg/common/credentialmanager/credentialmanager.go:44-88 | A secret of a new version that holds the two keys of a server, in any order and case, is answered with exactly those two values, and nothing else that was cached changes. |
| `CredentialsServed.FilesAreServed` | pkg/common/credentialmanager/credentialmanager.go:90-126 | So are the files of a directory, as long as no secret is stored. |
| `CredentialsServed.RefusedExactly` | pkg/common/credentialmanager/credentialmanager.go:44-72 | Which requests are refused, and with what: a failing look-up of a secret that is not gone, or a new secret that is empty, has an unknown key or leaves a field out; nothing about the directory ever is a reason. |
| `CredentialsServed.DirectoryIsReadOnce` | pkg/common/credentialmanager/credentialmanager.go:90-126 | A request that is not refused tries the directory, and once tried what it holds does not matter. |
| `Credentials.SecretCache.ParseConfig` | pkg/common/credentialmanager/credentialmanager.go:178-208 | The two loops over maps do what the specification says for the order they happened to take. |
| `Credentials.SecretCache.ParseSecret` | pkg/common/credentialmanager/credentialmanager.go:161-175 | Parses the Kubernetes secret if there is one, else the files. |
| `Credentials.SecretCredentialManager.UpdateCredentialsMapK8s` | pkg/common/credentialmanager/credentialmanager.go:74-88 | Stores and parses a secret of a new version, and only that. |
| `Credentials.SecretCredentialManager.UpdateCredentialsMapFile` | pkg/common/credentialmanager/credentialmanager.go:90-126 | Reads the directory at most once, whether or not that goes well. |
| `Credentials.SecretCredentialManager.GetCredential` | pkg/common/credentialmanager/credentialmanager.go:44-72 | Updates from both sources and answers from the cache, as specified. |
| `NodeManager.LatestDiscoveryWins` | pkg/cloudprovider/vsphere/nodemanager.go:78-85 | After any run each index, by name, by UUID and by place, answers with the node discovered last under its key, and with nothing else. |
| `NodeManager.RegisteredMeans` | pkg/cloudprovider/vsphere/nodemanager.go:87-99 | A UUID is registered if and only if it was registered and not unregistered since. |
| `NodeManager.RegisteredName` | pkg/cloudprovider/vsphere/nodemanager.go:87-92 | What is registered for a UUID is the name it was registered with last. |
| `NodeManager.RunsKeepIndicesConsistent` | pkg/cloudprovider/vsphere/nodemanager.go:78-99 | After any run keys match their nodes' fields, tree entries sit at their own place, and the node stored for a UUID is the one in the tree at its place. |
| `NodeManager.RefusedExactly` | pkg/cloudprovider/vsphere/nodemanager.go:195-214 | An export is refused if and only if it asks for a vCenter or a datacenter where no node was ever discovered, and says which of the two it is. |
| `NodeManager.ExportTells` | pkg/cloudprovider/vsphere/nodemanager.go:195-250 | After any run every exported entry has the vCenter, datacenter, name, UUID, host names and external addresses, in order, of the latest discovery at some place that was asked for, and every discovered node that was asked for has an entry. |
| `NodeManager.FilteredIsPartOfFull` | pkg/cloudprovider/vsphere/nodemanager.go:195-226 | Exports list every place once, and a filtered export is the part of the full one it selects. |
| `NodeManager.ExportsArePermutations` | pkg/cloudprovider/vsphere/nodemanager.go:228-250 | Two exports of one selection are the same up to the order of the maps. |
| `NodeManager.ListedOnceExactly` | pkg/cloudprovider/vsphere/nodemanager.go:215-221 | A full export lists each virtual machine once if and only if none was ever discovered at two places. |
| `NodeManager.MovedNodeIsListedTwice` | pkg/cloudprovider/vsphere/nodemanager.go:215-221 | Every full export after a machine moved between datacenters lists it twice. |
| `NodeManager.Manager.AddNodeInfo` | pkg/cloudprovider/vsphere/nodemanager.go:78-85 | All three indices take the node in. |
| `NodeManager.Manager.AddNodeInfoToVCList` | pkg/cloudprovider/vsphere/nodemanager.go:253-271 | The tree grows the missing levels and the node. |
| `NodeManager.Manager.AddNode` | pkg/cloudprovider/vsphere/nodemanager.go:87-92 | Registers. |
| `NodeManager.Manager.RemoveNode` | pkg/cloudprovider/vsphere/nodemanager.go:94-99 | Unregisters, and leaves the other indices alone. |
| `NodeManager.Manager.FindDatacenterInfoInVCList` | pkg/cloudprovider/vsphere/nodemanager.go:274-286 | The datacenter's nodes, or which level is missing. |
| `NodeManager.Manager.FindNodeInfoInVCList` | pkg/cloudprovider/vsphere/nodemanager.go:289-301 | Finds a node if and only if the tree has its place. |
| `NodeManager.Manager.ExportNode` | pkg/cloudprovider/vsphere/nodemanager.go:230-247 | External addresses and host names, in order; internal addresses are left out. |
| `NodeManager.Manager.DatacenterToNodeList` | pkg/cloudprovider/vsphere/nodemanager.go:228-250 | Adds each node of the datacenter once, in the order its map is walked. |
| `NodeManager.Manager.ExportNodes` | pkg/cloudprovider/vsphere/nodemanager.go:195-226 | Appends each selected node once, or reports what is missing and appends nothing. |
| `VolumeCheck.VerifyVolumePathsForVMDevices` | pkg/common/vclib/utils.go:193-209 | The set look-up marks exactly the requested paths that back a disk of the machine. |
| `VolumeCheck.VerifyVolumePathsForVM` | pkg/common/vclib/datacenter.go:332-347 | The nested comparison marks the same paths: both checks compute one map for all devices and paths. |
| `VolumeCheck.SetNodeVolumeMap` | pkg/common/vclib/datacenter.go:349-360 | Sets one entry, making the node's map where there is none. |
| `VolumeCheck.VerifyVM` | pkg/common/vclib/datacenter.go:317-327 | One retrieved machine marks what it has for every requested node of its name. |
| `VolumeCheck.CheckDisksAttached` | pkg/common/vclib/datacenter.go:289-329 | On success exactly the requested pairs have an entry, true if and only if a machine found for some node has the node's name and a disk backed by exactly that file; it fails if and only if machines were found and their properties cannot be fetched. |

## Left out

- The answers of external calls are inputs: each call is made at most once per position of a
  walk, so they are written down beforehand. Shared variables of the search are sequentially
  consistent; the unsynchronised write of the result cell is one step before the flag's.
- The fallback search over hosts (zones.go:322-485): its worker skips successful look-ups, so it
  never finds anything; and the dispatch between single and multiple vCenters.
- `ZoneSearch.SearchZone`: the inventory is given with the outcome of each cluster in it, which is what
  `CheckCluster` computes for the cluster.
- The child look-ups of datastore clusters (storagepod.go) and the per-datastore searches
  (datastore.go): a cluster is its list of children, a datastore its list of disks.
- The datastore-cluster branch of the disk listing, which the early return makes unreachable. A
  datacenter's datastores are all of them, those in clusters included.
- `FcdListing.ListVolumes`: negative tokens and negative limits crash the source and are excluded.
- `FcdListing.SortByIdDescending`: stands for the library's sort by its contract, not its algorithm.
- `FcdLifecycle.Controller.CreateVolume`: the topology that selects the datacenter is an input. The
  library's rounding is taken to be rounding up to whole GiB, for every size.
- `FcdLifecycle.Controller.DeleteVolume`: the datastores of one datacenter fail or answer for the whole
  call; connection attempts to one vCenter all fail or the first succeeds.
- `VirtualMachine.VM.AttachDisk`: a path without a bracketed datastore crashes the source and is
  excluded.
- `NodeMounts.RunsKeepInv`: each volume has its own staging and target paths, which the specification
  asks of the orchestrator.
- `ScsiBus.GetNextUnitNumber`: unit numbers fit the array of sixteen, which the source takes for
  granted; the invariant of the machine provides it.
- The device library: new controllers get fresh keys, lists keep insertion order, a controller lists
  the devices on its bus, a new disk's file gets the extension, a failing call changes nothing.
- Mount options other than read-only, formatting, device links and the difference between a device's
  link and its real path.
- Attributes and contexts of volumes, publishing to and from nodes by the controller service,
  snapshots, capabilities.
- Discovery of a node's properties, byte order of UUIDs, instance types, and locks: each method of the
  node manager runs alone.
- `FcdListing.ExistsInList`: case folding covers ASCII only, as everywhere.
- `ZoneSearch.CheckCluster`: case folding covers ASCII only.
- Secrets and names are strings of characters, not of bytes.
- Login, sessions, TLS, configuration files, metrics, logging, sleeps, command-line tools.
