# Host CPU, NUMA and address allocation of karpenter-provider-proxmox

A Dafny 4.11 model of the allocators at the centre of the Proxmox provider and of the state kept
around them. `dafny verify dfyconfig.toml` checks all of it.

- **CPU allocator.** `Topology`, `Sorting` and `UnitOrder` hold the topology queries and the
  sorts. `PackedModel` is the packed allocator as functions on accumulator values, `Accumulator`
  the class with the loops, proved equal to them. `PackedExact` says on every machine by how much
  a result falls short, `StageOrder` and `CacheOrder` which CPUs are handed out, `CoreCuts`,
  `CoreSplit` and `SpreadOrder` what that means for cores, `LoneCut` and `SplitCache` when and
  where it fails. `Combinations`, `Spreading`, `BalanceSearch`, `CandidateSizes`, `TakenCores`,
  `CarryingOut` and `Distributed` are the allocator that searches combinations of NUMA nodes,
  `SharedSlices` the arrays its combinations share, `FiveNodes` what that costs with few nodes.
  `HangingSearch`, `WiderSearch` and `AccountingError` are requests it never answers, gives up and
  fails on, each on a machine of `PlainMachine`.
- **Policies.** `PolicyModel` holds the books both policies keep, `PolicyRuns` their whole runs,
  `StaticOrder` what the static policy's options make of packed allocation, `StaticPolicies` and
  `SimplePolicies` the classes, `Placement` what a placement writes into a request,
  `ResourceManagers` and `CloudCapacity` the guards and the headroom tests above them, `Restart`
  and `TwoNodeVm` what becomes of a VM after a restart and at its deletion.
- **Discovery and configuration.** `NodeSettings` and `Discovery` compute a topology from the
  processor name; `DiscoveredShape` and `DiscoveredHosts` prove it well formed, `EpycHost` shows a
  real one that fails. `VmConfig`, `ConfiguredNodes`, `VmRoundTrip` and `DiscoveryVm` are the
  encodings in VM configurations and their round trips.
- **Addresses.** `IPPools`, `PoolRuns` and `NodeIpam`.
- **Retries.** `RetryQueue` (values and runs) and `Reconcilers` (the slice compacted in place).

One predicate, `Topology.WellFormed`, says what the allocator relies on: core and socket sizes are
uniform, every core lies in one NUMA node, socket and cache, sockets nest in NUMA nodes or the
other way round as the code chooses, and the counts agree with the details. Sources of
nondeterminism are parameters: the order of Go map iteration is an arbitrary choice in every loop
over a map, the balance score is any non-negative function, the handler's answers and the clock
are functions supplied per step. Memory of the request, node counters and addresses are unbounded
numbers.

## What the model found

Each entry names a lemma with a concrete input and the general statements around it, or says that
the statement is about every case.

- Packed allocation aligned to caches reports success with too few CPUs when an L3 cache cuts NUMA
  nodes, because the cache is listed once per node and claimed twice: `SplitCacheMiscounts`, and
  on a discovered EPYC 7352 `EpycMiscounts`. `PackedExactIff` and `LoneCutIff` say exactly when,
  `PackedCorrect` gives a condition a caller can check.
- The distributed search need not end: `SearchHangs`. `ComboEndsIff` says when its loops do,
  `MostSearchesEnd` and `OneNodeEnds` for which requests.
- Its range of sizes can leave out the only combination that qualifies, so that it falls back to
  packed allocation: `WiderIsMissed`. `WiderIff` and `SearchIsExhaustive` say exactly when, and
  that it needs four groups, five free nodes and a node without whole groups.
- A combination saved as the best one is a slice of an array that the walk goes on writing into,
  so another can be carried out: with six free nodes a request for which there is a plan can end
  in the accounting error (`PlanIsSpoilt`, `EndsInError`). `HeldIff` and `AllIntactIff` say
  exactly which slices change, `FiveServed` that five nodes are always served.
- A static placement on several NUMA nodes is charged its whole memory on each of them, and is
  refused, its CPUs reported free, after a restart: `PlacementForgotten`. `PlacementReplays` and
  `RestartRestores` are the exact conditions.
- A deleted VM whose memory is no multiple of a MiB leaves the rest of it booked
  (`DeletionSettles`, for every such VM).
- EPYC hosts with several sockets, and some with one, are discovered with caches that are too
  large: `EpycDoublesCaches`; `EpycCacheSize` says exactly which. An EPYC name is recognised only
  if white space follows its number and letters, so not if it ends there (`NumberRead`, for every
  such name).
- A simple-policy request that carries an affinity is not undone by its release: `AffinityLeaks`,
  `AllocateUndone`. A release without an id is ignored although `Allocate` accepts such a request:
  `NamelessStays`. The one caller always sets the id and never an affinity
  (pkg/providers/instance/instance_utils.go:84-92), so neither arises from it.
- Headroom is short when reserved CPUs do not exist: `HeadroomMisreports`, `FitMisses`;
  `HeadroomIsHonest` and `FitIsExact` say exactly when.
- `Next` on a full pool returns an address that is taken: `FullPoolRepeats`, `TookConsistent`.
  Nested subnets hand out the same address: `SameAddressTwice`, `OverlappingSubnetsShare`. A wider
  prefix can be dropped silently: `WiderPrefixIsLost`, `MissedIffInside`.

## Model

| member | source | states |
|---|---|---|
| PackedExact.PackedExactIff | pkg/providers/cloudcapacity/cpumanager/cpu_assignment.go:778-830 | The main result on packed allocation, for every well-formed machine, free set, request, strategy and cache flag: a request the free CPUs can serve succeeds, and gets exactly as many CPUs as it asks for if and only if the cache-aligned stage is not reached with the need of an average cache, or the caches its first pass claims are pairwise different |
| PackedExact.PackedExactly | pkg/providers/cloudcapacity/cpumanager/cpu_assignment.go:778-830 | The number of CPUs handed out is the request less the CPUs the cache-aligned stage counts twice; all of them are free |
| PackedExact.TakeUnitsAccount | pkg/providers/cloudcapacity/cpumanager/cpu_assignment.go:529-566 | Claimed plus needed CPUs drop in one pass by just what is counted twice |
| PackedExact.OvercountIff | pkg/providers/cloudcapacity/cpumanager/cpu_assignment.go:529-566 | A pass counts nothing twice exactly when the units it claims are pairwise different |
| PackedExact.QuietLoop | pkg/providers/cloudcapacity/cpumanager/cpu_assignment.go:611-629 | After its first pass the cache loop keeps claimed plus needed equal to the request |
| PackedModel.PackedCorrect | pkg/providers/cloudcapacity/cpumanager/cpu_assignment.go:778-830 | Total correctness: exactly the requested number of free CPUs, or the shortage error when there are fewer. In the cache-aligned mode it asks that every L3 cache that is wholly free and lies in several NUMA nodes without holding one be larger than half the request; a caller can check this on the machine, the free set and the request |
| PackedModel.PackedSafe | pkg/providers/cloudcapacity/cpumanager/cpu_assignment.go:778-830 | With no assumption on the caches: success exactly when there are enough free CPUs, only free CPUs handed out, never too many |
| PackedModel.PackedNonEmpty | pkg/providers/cloudcapacity/cpumanager/cpu_assignment.go:778-830 | A request that can be served is never answered with an empty set |
| PackedModel.TakeKeeps | pkg/providers/cloudcapacity/cpumanager/cpu_assignment.go:529-533 | One take keeps claimed plus needed equal to the request and the claimable CPUs equal to the free ones less the claimed |
| PackedModel.TakeFullKeeps | pkg/providers/cloudcapacity/cpumanager/cpu_assignment.go:535-555 | Taking whole NUMA nodes, sockets or cores keeps those two equations |
| PackedModel.TakeFullUncoreKeeps | pkg/providers/cloudcapacity/cpumanager/cpu_assignment.go:557-566 | So does taking whole L3 caches under that condition, once no free NUMA node fits any more |
| PackedModel.RepeatedCacheIsLarge | pkg/providers/cloudcapacity/cpumanager/cpu_assignment.go:121-131 | A cache the per-node concatenation lists twice is then larger than half the need, so it is not claimed twice |
| LoneCut.LoneCutIff | pkg/providers/cloudcapacity/cpumanager/cpu_assignment.go:557-629 | When one cache that cuts NUMA nodes is the only unit wholly free, a request is served exactly if and only if it is smaller than an average cache or than twice this one |
| PackedExact.EqualCachesIff | pkg/providers/cloudcapacity/cpumanager/cpu_assignment.go:557-629 | On a machine with caches of one size a call is exact if and only if the cache-aligned stage is not reached or the first entries of its list of free caches, as many as fit into the need, are pairwise different |
| PackedModel.TakePartialKeeps | pkg/providers/cloudcapacity/cpumanager/cpu_assignment.go:568-609 | So does taking part of a cache, with the odd-request trimming |
| PackedModel.TakeFullIsMaximal | pkg/providers/cloudcapacity/cpumanager/cpu_assignment.go:351-393 | When a full-level take ends, every unit of the level still wholly free is larger than the remaining need, although the free list is computed once before the loop |
| PackedModel.FreeUnitsExact | pkg/providers/cloudcapacity/cpumanager/cpu_assignment.go:327-402 | The list of free units names exactly the wholly free units, also where the code compares with an average size |
| PackedModel.TakeRemainingKeeps | pkg/providers/cloudcapacity/cpumanager/cpu_assignment.go:642-650 | takeRemainingCPUs claims exactly the first CPUs of the sorted list, as many as are needed |
| CoreSplit.PackedBreaksAtMostOneCore | pkg/providers/cloudcapacity/cpumanager/cpu_assignment.go:568-650 | From a free set of whole cores a packed allocation splits at most one physical core, whatever the caches |
| CoreSplit.PackedKeepsWholeCores | pkg/providers/cloudcapacity/cpumanager/cpu_assignment.go:568-650 | And none when the request is a multiple of the threads per core, also where the cache-aligned mode hands out too few CPUs |
| StageOrder.PackedTakesWholeUnits | pkg/providers/cloudcapacity/cpumanager/cpu_assignment.go:788-801 | Which units are handed out whole, for every machine, free set, request, strategy and cache flag: of the wholly free sockets, where there are fewer sockets than NUMA nodes, and of the wholly free NUMA nodes on the other machines, the poorest first, each if it still fits; then so of the other level on what is left. A socket that is passed over is larger than the request less the sockets taken before it |
| StageOrder.PackedTakesCores | pkg/providers/cloudcapacity/cpumanager/cpu_assignment.go:813-830 | Without cache alignment the rest is determined CPU by CPU: with the packed strategy cores that are wholly free in the order of the chain of levels, each if it fits, then the first single CPUs of that order; with the spread strategy the first single CPUs |
| CacheOrder.PackedTakesCaches | pkg/providers/cloudcapacity/cpumanager/cpu_assignment.go:803-811 | With cache alignment, once no average cache fits any more or where caches nest in NUMA nodes: whole caches first, each if it fits; then the lowest cores of the first cache on which just as many CPUs as are needed can be had, all the rest on that one cache; cores and single CPUs if there is none |
| CacheOrder.PackedInOrder | pkg/providers/cloudcapacity/cpumanager/cpu_assignment.go:778-830 | Both results together, for every call that is served |
| CoreCuts.PackedCutsAtMostOneCore | pkg/providers/cloudcapacity/cpumanager/cpu_assignment.go:568-650 | From any free set, whole cores or not, at most one core gives some but not all of its free CPUs to a packed allocation |
| SpreadOrder.SpreadTakesLowest | pkg/providers/cloudcapacity/cpumanager/cpu_assignment.go:506-526 | With the spread strategy a CPU that is handed out has a lower id than every free one of its NUMA node and socket that is not |
| SplitCache.SplitCacheMiscounts | pkg/providers/cloudcapacity/cpumanager/cpu_assignment.go:557-566 | A well-formed machine with a cache that cuts two NUMA nodes, on which asking for four of four free CPUs succeeds with two |
| EpycHost.EpycMiscounts | pkg/providers/cloudcapacity/cpumanager/cpu_assignment.go:557-629 | A discovered 24-core EPYC 7352 with five of its 48 CPUs in use: asking for sixteen CPUs in the cache-aligned mode succeeds with fewer |
| Accumulator.CpuAccumulator.TakeCpus | pkg/providers/cloudcapacity/cpumanager/cpu_assignment.go:529-533 | take changes claimed, claimable and needed as the specification function says |
| Accumulator.CpuAccumulator.FreeUnitsOf | pkg/providers/cloudcapacity/cpumanager/cpu_assignment.go:351-402 | The lists of free NUMA nodes, sockets, caches and cores |
| Accumulator.CpuAccumulator.TakeFullUnits | pkg/providers/cloudcapacity/cpumanager/cpu_assignment.go:535-566 | The loops over whole units leave the accumulator in the specified state |
| Accumulator.CpuAccumulator.TrimOdd | pkg/providers/cloudcapacity/cpumanager/cpu_assignment.go:579-592 | The trimming of an odd request on a multi-threaded machine drops at most the highest CPU |
| Accumulator.CpuAccumulator.TakePartialUncore | pkg/providers/cloudcapacity/cpumanager/cpu_assignment.go:568-609 | takePartialUncore against its specification |
| Accumulator.CpuAccumulator.TakeUncoreCache | pkg/providers/cloudcapacity/cpumanager/cpu_assignment.go:611-629 | takeUncoreCache against its specification |
| Accumulator.CpuAccumulator.TakeRemainingCPUs | pkg/providers/cloudcapacity/cpumanager/cpu_assignment.go:642-650 | takeRemainingCPUs against its specification |
| Accumulator.CpuAccumulator.SortAvailableNUMANodes | pkg/providers/cloudcapacity/cpumanager/cpu_assignment.go:436-453 | The NUMA order of either accumulator form is the one the chain of levels defines |
| Accumulator.CpuAccumulator.SortAvailableSockets | pkg/providers/cloudcapacity/cpumanager/cpu_assignment.go:455-477 | The socket order likewise |
| Accumulator.CpuAccumulator.SortAvailableUncoreCaches | pkg/providers/cloudcapacity/cpumanager/cpu_assignment.go:121-131 | The cache order likewise |
| Accumulator.CpuAccumulator.SortAvailableCores | pkg/providers/cloudcapacity/cpumanager/cpu_assignment.go:479-504 | The core order likewise |
| Accumulator.CpuAccumulator.SortAvailableCPUs | pkg/providers/cloudcapacity/cpumanager/cpu_assignment.go:506-526 | The packed and the spread CPU order likewise |
| Accumulator.CpuAccumulator.RunStages | pkg/providers/cloudcapacity/cpumanager/cpu_assignment.go:790-830 | The stages in order, each with its early return, end as the specification function, whose order of stages PackedTakesWholeUnits and PackedInOrder determine from the outside |
| Accumulator.TakeByTopologyNUMAPacked | pkg/providers/cloudcapacity/cpumanager/cpu_assignment.go:778-830 | The imperative allocator: the shortage error exactly when there are too few free CPUs; otherwise only free CPUs, never too many, exactly the request under the condition on caches, and the CPUs themselves: whole units, then caches or cores, then single CPUs, in the order of PackedInOrder |
| UnitOrder.CpuSortsAreLexicographic | pkg/providers/cloudcapacity/cpumanager/cpu_assignment.go:133-207 | Both multi-level CPU sorts are permutations of the free CPUs, strictly ordered lexicographically by free count and id at every level of the chain |
| UnitOrder.CpuListIsLexicographic | pkg/providers/cloudcapacity/cpumanager/cpu_assignment.go:506-526 | The same for any nested chain of levels |
| UnitOrder.AvailableNoDup | pkg/providers/cloudcapacity/cpumanager/cpu_assignment.go:133-207 | A sorted list along a nested chain names no unit twice |
| UnitOrder.SortFromParent | pkg/providers/cloudcapacity/cpumanager/cpu_assignment.go:133-207 | The order of a level is the concatenation of its sorted groups in the order of the parent level |
| UnitOrder.SpreadFromSockets | pkg/providers/cloudcapacity/cpumanager/cpu_assignment.go:519-526 | The spread sort is the same socket by socket |
| Sorting.SortUnique | pkg/providers/cloudcapacity/cpumanager/cpu_assignment.go:406-419 | The comparison is strict, so the sorted list does not depend on the order the ids come in |
| Topology.CoresNeededInUncoreCache | pkg/providers/cloudcapacity/cpumanager/topology/topology.go:183-204 | At most the asked-for number of cores of a cache, those with the lowest ids |
| Topology.KeepMembers | pkg/providers/cloudcapacity/cpumanager/topology/topology.go:148-157 | Restricting the details to some CPUs restricts every unit to them |
| Combinations.CombosExact | pkg/providers/cloudcapacity/cpumanager/cpu_assignment.go:706-726 | The combinations are exactly the k-element subsequences, each once, in lexicographic order of positions |
| Combinations.CallsArePrefix | pkg/providers/cloudcapacity/cpumanager/cpu_assignment.go:706-726 | The callback sees a prefix of them: all of them, or up to and including the first Break |
| Combinations.IterateCombinations | pkg/providers/cloudcapacity/cpumanager/cpu_assignment.go:706-726 | The recursive walk with its callback state is the run over that list |
| Distributed.TakeByTopologyNUMADistributed | pkg/providers/cloudcapacity/cpumanager/cpu_assignment.go:895-1125 | For every request on which the loops of the original end: the shortage error, the empty set or packed allocation at the early exits; else the outcome of the search, the first of the best plans of the first size that has one, and, when it found a plan, what the slices of the plan hold carried out: success with exactly the request from the free CPUs and the predicted counts left on every node if and only if each node they hold has its share, the accounting error otherwise. On success the CPUs are those that one packed take of the share from every node and takes of single groups lead to, in the order of packed allocation on what is free of the node, so at most one core a take is cut, none when groups are whole cores, and spread CPUs are the lowest of their node and socket. The slices hold the plan itself for at most four free NUMA nodes and for at most three groups; packed allocation when there is no plan |
| FiveNodes.FiveServed | pkg/providers/cloudcapacity/cpumanager/cpu_assignment.go:1080-1120 | With at most five free NUMA nodes a call that found a plan never ends in the accounting error, although the slice of a plan of four nodes can have lost its last one: the node it holds instead has at least as many free CPUs |
| FiveNodes.FivePlansEnd | pkg/providers/cloudcapacity/cpumanager/cpu_assignment.go:1091-1104 | And the last loop of the call ends |
| FiveNodes.NodesLast | pkg/providers/cloudcapacity/cpumanager/cpu_assignment.go:436-453 | The reason: the last free node listed has at least as many free CPUs as the one before it, also socket by socket |
| AccountingError.PlanIsSpoilt | pkg/providers/cloudcapacity/cpumanager/cpu_assignment.go:706-1120 | With six free nodes it can: a machine, a free set and a request for which the search finds a sound plan of four nodes, every loop ends, and whatever the score the slice of the plan holds a poorer node instead of its last one |
| AccountingError.EndsInError | pkg/providers/cloudcapacity/cpumanager/cpu_assignment.go:1080-1120 | The call for it ends in the accounting error with 32 CPUs free for 24 |
| AccountingError.FirstReplaced | pkg/providers/cloudcapacity/cpumanager/cpu_assignment.go:706-1071 | Whenever sets of a size share arrays, the first one visited loses its slice to the next call, also when the search stops early |
| SharedSlices.SavedSlices | pkg/providers/cloudcapacity/cpumanager/cpu_assignment.go:706-726 | The walk with its appends in shared backing arrays, broken off or not: each slice passed to the callback ends up holding the last visited combination that begins as it did, up to the length at which its array was allocated |
| SharedSlices.HeldIff | pkg/providers/cloudcapacity/cpumanager/cpu_assignment.go:706-726 | So a saved slice still holds its combination if and only if no later one that was visited begins alike |
| SharedSlices.AllIntactIff | pkg/providers/cloudcapacity/cpumanager/cpu_assignment.go:706-726 | All slices of a size do, however far the walk goes, if and only if combinations of that size have an array of their own or there is at most one |
| Distributed.MostSearchesEnd | pkg/providers/cloudcapacity/cpumanager/cpu_assignment.go:1018-1045 | They do with at most three free NUMA nodes, for at most three groups, and with whole groups of free CPUs on every node |
| Distributed.OneNodeEnds | pkg/providers/cloudcapacity/cpumanager/cpu_assignment.go:926-1045 | And on a machine of equal nodes for every request that fits on one of them |
| HangingSearch.SearchHangs | pkg/providers/cloudcapacity/cpumanager/cpu_assignment.go:926-1045 | A machine, a free set and a request for which they do not: every combination of three nodes is passed over, the only one of four passes all checks, and one of its remainder loops never ends, whatever the score |
| Distributed.SmallPlansEnd | pkg/providers/cloudcapacity/cpumanager/cpu_assignment.go:1091-1104 | The last loop of the call ends with at most four free nodes and for at most three groups |
| Distributed.IntactSucceeds | pkg/providers/cloudcapacity/cpumanager/cpu_assignment.go:1080-1120 | A plan that its slices still hold is carried out as the search predicted |
| Distributed.SmallIntact | pkg/providers/cloudcapacity/cpumanager/cpu_assignment.go:1061-1071 | A plan of at most three nodes, or with at most four free ones, is still held by its slices when it is carried out |
| Distributed.SearchIsExhaustive | pkg/providers/cloudcapacity/cpumanager/cpu_assignment.go:655-683 | With equal NUMA nodes a plan the pruned search finds is the best of all combinations: fewest nodes passing the checks and least score of that size. When it finds none there is none of at most as many nodes as groups; and none at all if and only if there are no more free nodes than groups or together they lack the groups, which is so for at most three groups, with at most four free nodes and with whole groups everywhere |
| CandidateSizes.WiderIff | pkg/providers/cloudcapacity/cpumanager/cpu_assignment.go:655-683 | Some combination of more nodes than groups qualifies if and only if there are more free nodes than groups and all of them together have the groups |
| CandidateSizes.FewGroupsQualify | pkg/providers/cloudcapacity/cpumanager/cpu_assignment.go:655-683 | At most three groups that the free nodes have are always shared by some combination of at most as many nodes |
| WiderSearch.WiderIsMissed | pkg/providers/cloudcapacity/cpumanager/cpu_assignment.go:655-683 | A machine, a free set and a request for which the range of sizes is two to four, no combination of up to four nodes qualifies and the one of all five does, whatever the score |
| WiderSearch.FallsBack | pkg/providers/cloudcapacity/cpumanager/cpu_assignment.go:1122-1125 | The call for it ends, in packed allocation |
| Distributed.NoSmallerCombination | pkg/providers/cloudcapacity/cpumanager/cpu_assignment.go:655-683 | No combination smaller than the computed minimum can hold the request |
| Distributed.RangeIs | pkg/providers/cloudcapacity/cpumanager/cpu_assignment.go:655-683 | The two ends of the range of sizes, as numbers rounded up |
| CandidateSizes.OneGroupEach | pkg/providers/cloudcapacity/cpumanager/cpu_assignment.go:655-683 | As many nodes as groups can always share the request, so nothing above the computed maximum need be tried |
| CarryingOut.CarryOut | pkg/providers/cloudcapacity/cpumanager/cpu_assignment.go:1080-1104 | Carrying out what the slices hold claims the even share from each node that has it and the remainder from the chosen subset, leaves every node with the count so computed, and takes on every node the CPUs that packed allocation with the same strategy takes there, share by share and group by group |
| CarryingOut.Allocate | pkg/providers/cloudcapacity/cpumanager/cpu_assignment.go:1080-1120 | With the two accounting checks: the request is served if and only if every node has its share, with the CPUs those takes lead to, and the accounting error is reported otherwise |
| CarryingOut.GiveShares | pkg/providers/cloudcapacity/cpumanager/cpu_assignment.go:1083-1087 | The even shares, one packed take a node: a node without its share gives nothing, the error being dropped |
| CarryingOut.GiveRemainder | pkg/providers/cloudcapacity/cpumanager/cpu_assignment.go:1091-1104 | The remainder loop ends with the predicted counts, after one packed take for every group |
| TakenCores.TakeKept | pkg/providers/cloudcapacity/cpumanager/cpu_assignment.go:1083-1104 | One take of a multiple of the group from what is free of a node: the CPUs are those of packed allocation on it, not aligned to caches; at most one more core is cut, none when the group and what is free are whole cores, and the lowest CPUs stay the ones handed out when they are spread |
| TakenCores.PackedKept | pkg/providers/cloudcapacity/cpumanager/cpu_assignment.go:1122-1125 | The same of the packed allocation on the whole machine that a request without a plan falls back to |
| Distributed.SearchSizes | pkg/providers/cloudcapacity/cpumanager/cpu_assignment.go:926-1078 | The loop over sizes stops at the first size with a candidate |
| BalanceSearch.SearchSize | pkg/providers/cloudcapacity/cpumanager/cpu_assignment.go:930-1071 | Among the combinations of one size it finds a candidate no other beats, and of several such the first; the early stop at score zero loses nothing |
| BalanceSearch.ScoreCombo | pkg/providers/cloudcapacity/cpumanager/cpu_assignment.go:933-1071 | The callback finds the least score over all ways to place the remainder of one combination, and the first subset that has it |
| BalanceSearch.Admits | pkg/providers/cloudcapacity/cpumanager/cpu_assignment.go:940-966 | The three checks at the head of the callback |
| BalanceSearch.BestRemainder | pkg/providers/cloudcapacity/cpumanager/cpu_assignment.go:997-1059 | The walk down the subset sizes misses no subset |
| BalanceSearch.BestSubset | pkg/providers/cloudcapacity/cpumanager/cpu_assignment.go:1018-1058 | One subset size of that walk: of equal scores the first, and only a better one replaces what larger subsets gave |
| BalanceSearch.SpreadRemainder | pkg/providers/cloudcapacity/cpumanager/cpu_assignment.go:1034-1045 | The two nested loops hand out the remainder round by round and end |
| BalanceSearch.ComboEndsIff | pkg/providers/cloudcapacity/cpumanager/cpu_assignment.go:1018-1045 | For a combination that passes the checks, all the remainder loops the callback runs end if and only if every subset with CPUs for the remainder has the groups for it |
| BalanceSearch.FewNodesEnd | pkg/providers/cloudcapacity/cpumanager/cpu_assignment.go:1018-1045 | That is so for every combination of at most three nodes |
| Spreading.RemainderLoopEnds | pkg/providers/cloudcapacity/cpumanager/cpu_assignment.go:1025-1045 | Without assuming whole groups: the remainder loop ends if and only if the nodes hold enough whole groups |
| Spreading.RemainderLoopCanHang | pkg/providers/cloudcapacity/cpumanager/cpu_assignment.go:1025-1045 | Two nodes left with three CPUs each pass the check for six CPUs in groups of two, and the loop never ends |
| Spreading.WholeGroupsSum | pkg/providers/cloudcapacity/cpumanager/cpu_assignment.go:1025-1029 | With whole groups everywhere the check on CPUs is the check on groups |
| Spreading.PassConserves | pkg/providers/cloudcapacity/cpumanager/cpu_assignment.go:1034-1045 | One round takes from the nodes just what it takes off the remainder |
| Spreading.PassTakes | pkg/providers/cloudcapacity/cpumanager/cpu_assignment.go:1034-1045 | In one round for q groups the first q nodes of the list that have a group give one each, and no other node gives anything |
| StaticPolicies.StaticPolicy.Allocate | pkg/providers/cloudcapacity/cpumanager/policy_static.go:141-215 | Success if and only if the memory, the CPUs beside the promised ones, the memory of each node asked for and enough free CPUs on nodes asked for, or with that much memory, are there, and which error otherwise; on success the CPUs are free ones of such nodes, split at most one core and none for multiples of the threads when whole cores are free, lie on one L3 cache when the request is smaller than every wholly free unit and some cache has the cores for it, and come in the order of packed allocation aligned to caches; books and request change as the specification says |
| StaticPolicies.GrantedIff | pkg/providers/cloudcapacity/cpumanager/policy_static.go:148-182 | The outcome of Allocate in the terms of the machine, the books and the request |
| StaticOrder.PackedTakenWell | pkg/providers/cloudcapacity/cpumanager/policy_static.go:337-354 | With the options of the static policy, whatever CPUs are free: at most one core is cut or split, none for multiples of the threads; a small request stays on one cache if a cache has the cores for it; and the order of units, caches, cores and CPUs is the one of packed allocation aligned to caches |
| StaticPolicies.StaticPolicy.AllocateOrUpdate | pkg/providers/cloudcapacity/cpumanager/policy_static.go:218-268 | The outcome and the whole new state |
| StaticPolicies.StaticPolicy.ReleaseVM | pkg/providers/cloudcapacity/cpumanager/policy_static.go:271-306 | The outcome and the whole new state |
| StaticPolicies.StaticPolicy.AvailableCPUs | pkg/providers/cloudcapacity/cpumanager/policy_static.go:123-128 | The reported CPU headroom |
| StaticPolicies.StaticPolicy.AvailableMemory | pkg/providers/cloudcapacity/cpumanager/policy_static.go:130-139 | The reported memory headroom |
| StaticPolicies.StaticPolicy.CheckNodes | pkg/providers/cloudcapacity/cpumanager/policy_static.go:232-238 | The loop over the request's NUMA nodes finds whether all fit and how much they ask for, in any map order |
| StaticPolicies.StaticPolicy.ChargeNodes | pkg/providers/cloudcapacity/cpumanager/policy_static.go:208-210 | Every node counter drops by what the VM asks of it |
| StaticPolicies.StaticPolicy.RefundNodes | pkg/providers/cloudcapacity/cpumanager/policy_static.go:295-301 | Every known node counter rises by what the VM was charged |
| StaticPolicies.StaticPolicy.EligibleCPUs | pkg/providers/cloudcapacity/cpumanager/policy_static.go:157-176 | The free CPUs of the preset nodes, or of the nodes that could hold all of the memory |
| StaticPolicies.StaticPolicy.TakeByTopology | pkg/providers/cloudcapacity/cpumanager/policy_static.go:337-354 | With the options every static policy is created with: what PackedTakenWell says of cores, caches and order holds of its result |
| StaticPolicies.LayOut | pkg/providers/cloudcapacity/cpumanager/policy_static.go:185-198 | The guest NUMA layout written into the request |
| StaticPolicies.NewStaticPolicy | pkg/providers/cloudcapacity/cpumanager/policy_static.go:75-117 | The two error returns, and the initial state otherwise |
| PolicyRuns.BooksDependOnLiveVMs | pkg/providers/cloudcapacity/cpumanager/policy_static.go:141-306 | Two runs that end with the same VMs live, in whatever order, end with the same books |
| PolicyRuns.RunBalanced | pkg/providers/cloudcapacity/cpumanager/policy_static.go:141-306 | In every reachable state used CPUs are the disjoint union of the live CPU sets less reserved, promised CPUs and memory are sums over live VMs, each node counter is its initial value less the live charges and is not negative |
| PolicyRuns.ReleasingAllRestores | pkg/providers/cloudcapacity/cpumanager/policy_static.go:271-306 | Releasing every live VM is possible in every order and restores the initial state |
| PolicyRuns.Left | pkg/providers/cloudcapacity/cpumanager/policy_static.go:271-306 | A live VM can always be released and gives back exactly its own share |
| PolicyRuns.Joined | pkg/providers/cloudcapacity/cpumanager/policy_static.go:243-267 | A VM joining the live ones is charged exactly its own share |
| PolicyModel.PartitionKept | pkg/providers/cloudcapacity/cpumanager/policy_static.go:243-292 | Updates and releases, in any order, keep free and used CPUs a partition of the machine less the reserved CPUs and memory within its limit |
| PolicyModel.PlacePartitions | pkg/providers/cloudcapacity/cpumanager/policy_static.go:181-212 | So do placements |
| PolicyModel.UpdateTurnsAway | pkg/providers/cloudcapacity/cpumanager/policy_static.go:218-254 | Which of its checks AllocateOrUpdate fails a VM on, in their order and in numbers of bytes and CPUs |
| PolicyModel.UpdateTakes | pkg/providers/cloudcapacity/cpumanager/policy_static.go:243-267 | What a VM that is booked takes: its CPUs that are not reserved or a number of promised ones, its memory, and the bytes of each node |
| PolicyModel.ReleaseGives | pkg/providers/cloudcapacity/cpumanager/policy_static.go:271-306 | When a release is refused, and what it gives back otherwise |
| PolicyModel.UpdateUndone | pkg/providers/cloudcapacity/cpumanager/policy_static.go:218-306 | Releasing what AllocateOrUpdate booked restores the books if and only if no CPU of the VM was in use already and every node it names has a counter |
| PolicyModel.HeadroomIsHonest | pkg/providers/cloudcapacity/cpumanager/policy_static.go:123-128 | The reported headroom is the number of free CPUs not promised, less the reserved CPUs that do not exist and not below zero; it is that number if and only if the reserved CPUs exist or the number is zero |
| PolicyModel.HeadroomMisreports | pkg/providers/cloudcapacity/cpumanager/policy_static.go:123-128 | A host with one free CPU that reports none |
| PolicyModel.TotalBytesAny | pkg/providers/cloudcapacity/cpumanager/policy_static.go:230-238 | The sum over the request's nodes does not depend on the map order |
| Placement.PlacementLayout | pkg/providers/cloudcapacity/cpumanager/policy_static.go:185-198 | One guest range per host node used, as long as the CPUs taken there; the ranges partition 0 .. CPUs - 1 |
| Placement.PlacementWrites | pkg/providers/cloudcapacity/cpumanager/policy_static.go:185-206 | The whole of what is written back, also into a request with preset nodes: the CPUs, and for every host node used a bound range of guest CPUs that begins after those of the lower-numbered nodes, with the whole memory in MiB; nodes not used stay as they were |
| Placement.PlacementIsLegal | pkg/providers/cloudcapacity/cpumanager/policy_static.go:141-215 | A successful placement is a legal step of a run: its CPUs are free and its node counters cover its charge |
| Restart.UpdateNodeCapacity | pkg/providers/cloudcapacity/utils.go:55-83 | The loop over the running VMs: the books are those of the policy told of every VM as it is read back, in that order, refused VMs passed over |
| Restart.ToldKeeps | pkg/providers/cloudcapacity/utils.go:65-80 | Told of pinned VMs that fit together, in whatever order, the policy books exactly those its check on the NUMA nodes lets through |
| Restart.RestartRestores | pkg/providers/cloudcapacity/utils.go:55-83 | After a restart, whatever the order in which the VMs are listed, the CPUs in use are those of the live VMs with at least one MiB on a single NUMA node; the books are those from before if and only if every live VM lies on one node and has whole MiB |
| Restart.PlacementReplays | pkg/providers/cloudcapacity/cpumanager/policy_static.go:218-268 | Told of a VM it placed, as it is read back from its configuration, while its CPUs are free, the policy books it if and only if it lies on one NUMA node, whatever its memory; it books the whole MiB of it |
| TwoNodeVm.PlacementForgotten | pkg/providers/cloudcapacity/cpumanager/policy_static.go:190-242 | A machine and a request for which Allocate places the VM on two nodes, and the policy then refuses the VM read back |
| Restart.DeletionSettles | pkg/providers/instance/instance_utils.go:230-264 | Deleting a live VM releases what its configuration says: the books are then those of the VMs left if and only if it had whole MiB; otherwise just the part of a MiB stays booked |
| Restart.NamelessStays | pkg/providers/cloudcapacity/resourcemanager/resourcemanager.go:152-206 | A request without an id is granted and its release ignored: the books keep it |
| Placement.PlacementCharge | pkg/providers/cloudcapacity/cpumanager/policy_static.go:190-210 | A placement is charged its memory exactly if and only if it lies on one NUMA node and has whole MiB |
| SimplePolicies.SimplePolicy.Allocate | pkg/providers/cloudcapacity/cpumanager/policy_simple.go:104-129 | The outcome and the new counters |
| SimplePolicies.SimplePolicy.AllocateOrUpdate | pkg/providers/cloudcapacity/cpumanager/policy_simple.go:132-169 | The outcome and the whole new state |
| SimplePolicies.SimplePolicy.ReleaseVM | pkg/providers/cloudcapacity/cpumanager/policy_simple.go:172-199 | The outcome and the whole new state |
| SimplePolicies.SimplePolicy.AvailableCPUs | pkg/providers/cloudcapacity/cpumanager/policy_simple.go:85-90 | The reported CPU headroom |
| SimplePolicies.SimplePolicy.AvailableMemory | pkg/providers/cloudcapacity/cpumanager/policy_simple.go:92-101 | The reported memory headroom |
| SimplePolicies.NewSimplePolicy | pkg/providers/cloudcapacity/cpumanager/policy_simple.go:56-79 | The two error returns, and the initial state otherwise |
| SimplePolicies.AllocateIsUpdate | pkg/providers/cloudcapacity/cpumanager/policy_simple.go:104-169 | Without an affinity, allocating a VM and being told of it are the same, so the results on runs hold here too |
| SimplePolicies.SimplePromises | pkg/providers/cloudcapacity/cpumanager/policy_simple.go:104-129 | The outcome and the books of Allocate in numbers |
| SimplePolicies.AllocateUndone | pkg/providers/cloudcapacity/cpumanager/policy_simple.go:104-199 | Releasing what Allocate booked restores the books if and only if the request carried no affinity |
| SimplePolicies.AffinityLeaks | pkg/providers/cloudcapacity/cpumanager/policy_simple.go:104-199 | A request with an affinity that leaves a CPU promised after its release |
| ResourceManagers.ResourceManager.Allocate | pkg/providers/cloudcapacity/resourcemanager/resourcemanager.go:152-171 | The guards, and success if and only if the policy has what is asked; with the static policy the request comes back with free CPUs that suit it and its layout, and just these CPUs, the memory and the bytes of each node are booked; with the simple policy it comes back as it is and its CPUs and memory are promised; a new request leaves the books those of the live VMs |
| ResourceManagers.ResourceManager.AllocateOrUpdate | pkg/providers/cloudcapacity/resourcemanager/resourcemanager.go:174-191 | The guards, the outcome, the new state, and the same invariant for VMs on known nodes and unused CPUs |
| ResourceManagers.ResourceManager.ReleaseVM | pkg/providers/cloudcapacity/resourcemanager/resourcemanager.go:194-206 | A live VM with an id is released and leaves the live VMs; a request without an id is ignored |
| ResourceManagers.ResourceManager.AvailableCPUs | pkg/providers/cloudcapacity/resourcemanager/resourcemanager.go:209-211 | The headroom of the policy |
| ResourceManagers.ResourceManager.AvailableMemory | pkg/providers/cloudcapacity/resourcemanager/resourcemanager.go:214-216 | The headroom of the policy |
| ResourceManagers.SimpleFits | pkg/providers/cloudcapacity/cloudcapacity.go:444-466 | With the simple policy FitInZone's test is true exactly when Allocate would succeed, when the reserved CPUs exist |
| ResourceManagers.FitIsExact | pkg/providers/cloudcapacity/cloudcapacity.go:444-466 | The test agrees with allocation on all requests if and only if the reserved CPUs exist or nothing can be granted at all |
| ResourceManagers.FitMisses | pkg/providers/cloudcapacity/cloudcapacity.go:444-466 | A host that grants a request the test turns away |
| ResourceManagers.StaticFits | pkg/providers/cloudcapacity/cloudcapacity.go:444-466 | With the static policy Allocate succeeds exactly when the test is true and enough free CPUs lie on nodes that can hold all the memory |
| CloudCapacity.Provider.FitInZone | pkg/providers/cloudcapacity/cloudcapacity.go:444-466 | True exactly when the zone is known, has a manager and that reports enough |
| CloudCapacity.Provider.GetAvailableZonesInRegion | pkg/providers/cloudcapacity/cloudcapacity.go:417-442 | The listed zones are exactly those FitInZone accepts, each once, in whatever map order |
| CloudCapacity.Provider.AllocateCapacityInZone | pkg/providers/cloudcapacity/cloudcapacity.go:93-117 | Granted exactly when the zone's policy has what is asked; never when FitInZone is false; with the simple policy exactly when FitInZone is true. What comes back and what is booked is what the zone's policy promises: placed free CPUs that are used afterwards, or CPUs promised, and the memory; every other zone keeps its books unless it shares the manager or the policy, and all do when it is not granted |
| CloudCapacity.AllocateWith | pkg/providers/cloudcapacity/cloudcapacity.go:104-114 | The same of one manager |
| CloudCapacity.KeyUnique | pkg/providers/cloudcapacity/cloudcapacity.go:104-105 | The key of a zone tells its region and its name |
| NodeSettings.GetNodeSettingByNode | pkg/utils/nodesettings/cpu.go:31-50 | Which family a host is taken for by the name of its processor, and its settings or error; for processors that are no EPYC the caches and nodes as numbers |
| NodeSettings.NumberFound | pkg/utils/nodesettings/cpu.go:60-63 | After the first AMD EPYC of a name, whatever stands before it, one or two white spaces, a four-digit number and any letters, the regular expression finds that number if and only if white space comes next |
| NodeSettings.NumberRead | pkg/utils/nodesettings/cpu.go:60-63 | A name with one AMD EPYC in it is read as that number if white space comes next, and is not recognised otherwise, as when it ends there |
| NodeSettings.EpycSettings | pkg/utils/nodesettings/cpu.go:53-127 | The EPYC tables as numbers, for every such name and host: the cores of a socket divided by 4, 6 or 8 for the second digits 2 and 3, 4, and 5 to 8 are the caches written, none for other digits; four NUMA nodes a socket for the last digits 1, 2, 4 and 5, one otherwise; cores, sockets, threads, and the CPUs and memory of every node, or the error when there are fewer cores than nodes |
| NodeSettings.PlainSettings | pkg/utils/nodesettings/cpu.go:130-208 | The same of plain AMD hosts, without caches, and of Intel hosts, one cache a socket; both with one NUMA node a socket; no settings for other names |
| NodeSettings.EpycUnread | pkg/utils/nodesettings/cpu.go:60-63 | An EPYC whose number is not followed by white space gets no settings |
| NodeSettings.NodeSettingsAMDEPYC | pkg/utils/nodesettings/cpu.go:53-127 | The EPYC settings, or none when the name holds no number the regular expression matches |
| NodeSettings.NodeSettingsAMD | pkg/utils/nodesettings/cpu.go:130-167 | The settings of other AMD processors |
| NodeSettings.NodeSettingsIntel | pkg/utils/nodesettings/cpu.go:170-208 | The Intel settings |
| NodeSettings.FillNodes | pkg/utils/nodesettings/cpu.go:99-124 | The loop fills every NUMA node with its slice of the cores and of their second threads, or fails when a node would have no core |
| Discovery.DiscoverFromSettings | pkg/providers/cloudcapacity/cpumanager/topology/discovery.go:69-136 | Counts, sums and the place of every CPU as the settings say, or the error for settings without NUMA nodes |
| Discovery.CPUDescribed | pkg/providers/cloudcapacity/cpumanager/topology/discovery.go:98-119 | The socket, core and cache of every CPU as numbers |
| Discovery.CountNodes | pkg/providers/cloudcapacity/cpumanager/topology/discovery.go:84-96 | The totals over the nodes, in any map order |
| Discovery.Fill | pkg/providers/cloudcapacity/cpumanager/topology/discovery.go:99-120 | Every CPU of every node is described, as a CPU of a node that lists it |
| Discovery.DescribesOne | pkg/providers/cloudcapacity/cpumanager/topology/discovery.go:83-120 | When the nodes list different CPUs the topology does not depend on the map order |
| DiscoveredHosts.DiscoveryWellFormed | pkg/providers/cloudcapacity/cpumanager/topology/discovery.go:69-136 | For hosts of a known family whose cores split evenly, with one or two threads a core: the topology is well formed, a core and its second thread are together, every NUMA node lies in one socket, and the numbers of nodes and sockets are the built ones |
| DiscoveredHosts.HostCachesAligned | pkg/utils/nodesettings/cpu.go:65-97 | The L3 caches of such a host are aligned if and only if it has one NUMA node or one cache, or the smaller of node and cache size divides the other |
| DiscoveredHosts.CachesAlignedIff | pkg/providers/cloudcapacity/cpumanager/topology/discovery.go:98-111 | The same for any evenly laid out machine |
| DiscoveredHosts.DiscoveredHostsPackExactly | pkg/providers/cloudcapacity/cpumanager/cpu_assignment.go:778-830 | On every discovered Intel or plain AMD host packed allocation is exact for all requests |
| DiscoveredHosts.EpycCutsNodes | pkg/utils/nodesettings/cpu.go:65-97 | A 24-core EPYC 7352 is discovered with a cache that lies in two NUMA nodes and holds neither |
| DiscoveredHosts.EpycCacheSize | pkg/utils/nodesettings/cpu.go:80-82 | The exact size of the caches discovered for any EPYC host: right if and only if it has one socket and fewer cores left over than whole caches, as the builder writes down the caches of one socket, rounded down, where discovery reads those of the machine; the whole machine when a socket has less than one cache |
| DiscoveredHosts.HostPacksIff | pkg/providers/cloudcapacity/cpumanager/cpu_assignment.go:557-629 | On a discovered host whose cache size divides its cores a call is exact if and only if the first free caches listed, as many as fit into the need, are pairwise different |
| DiscoveredHosts.Name7352 | pkg/utils/nodesettings/cpu.go:60-63 | The name of an EPYC 7352, whatever follows the number, is read as the model that the statements on this processor are about |
| DiscoveredHosts.EpycDoublesCaches | pkg/utils/nodesettings/cpu.go:80-82 | Two sockets with an EPYC 7352 and caches of four cores are discovered with caches of eight |
| DiscoveredHosts.SplitMachineDiscovered | pkg/providers/cloudcapacity/cpumanager/topology/discovery.go:69-136 | Settings whose discovery is exactly the machine of SplitCacheMiscounts |
| DiscoveredHosts.MemorySplit | pkg/utils/nodesettings/cpu.go:118-121 | The memory of the nodes sums to that of the host, short by less than one byte a node |
| DiscoveredShape.SocketOf | pkg/providers/cloudcapacity/cpumanager/topology/discovery.go:103-104 | The socket number wraps around exactly once for the second threads |
| VmConfig.GetResourceFromVM | pkg/proxmox/resources/vm/resources.go:33-110 | The CPU set, the memory and the merged NUMA nodes of a configuration, or the error that an entry does not split evenly |
| ConfiguredNodes.ReadsConfigured | pkg/proxmox/resources/vm/resources.go:33-110 | What the reading is, entry by entry and CPU by CPU: refused if and only if an entry with memory, CPUs and several host nodes does not divide evenly; otherwise the CPUs of the affinity, and the nodes such entries name, each with the CPUs whose rank in the entry falls to the rank of the node, the sum of the shares of memory and the policy of one of the entries |
| ConfiguredNodes.MergedAre | pkg/proxmox/resources/vm/resources.go:59-104 | The nodes are exactly these, in whatever order the entries come |
| ConfiguredNodes.ShareByRank | pkg/proxmox/resources/vm/resources.go:78-101 | The host nodes of an entry in ascending order take runs of equal length of its ascending CPUs |
| ConfiguredNodes.EntryAdds | pkg/proxmox/resources/vm/resources.go:71-102 | What one entry adds to the nodes read so far: to each of its host nodes its run of CPUs, its share of the memory, and its policy in place of the one there was; an entry without memory, CPUs or host nodes adds nothing |
| ConfiguredNodes.FormatApart | pkg/proxmox/resources/vm/resources.go:124-124 | A CPU set is written with as few ranges as possible, in ascending order |
| VmConfig.MergeEntries | pkg/proxmox/resources/vm/resources.go:59-104 | The loop over the entries, in any map order |
| VmConfig.SpreadEntry | pkg/proxmox/resources/vm/resources.go:78-103 | One entry spread over its host nodes, slice by slice |
| VmConfig.SplitConserves | pkg/proxmox/resources/vm/resources.go:78-103 | The slices of an entry are disjoint, equal and cover it; the memory given out is short of the configured by less than the number of host nodes |
| VmConfig.MergedOne | pkg/proxmox/resources/vm/resources.go:90-102 | Host nodes, CPUs and memory do not depend on the order the entries are visited |
| VmConfig.MergedCPUs | pkg/proxmox/resources/vm/resources.go:59-104 | Every CPU of an entry that counts goes to a host node, and no other CPU does |
| VmConfig.FormatReads | pkg/proxmox/resources/vm/resources.go:124-124 | Writing a CPU set as a list of ranges and reading it gives its elements in order |
| VmRoundTrip.GenerateVMOptionsFromResources | pkg/proxmox/resources/vm/resources.go:113-168 | The options, or the error for a node without CPUs |
| VmRoundTrip.NumaEntries | pkg/proxmox/resources/vm/resources.go:132-164 | The loop over the sorted nodes numbers the guest CPUs consecutively |
| VmRoundTrip.ReadBack | pkg/proxmox/resources/vm/resources.go:33-168 | Reading back what was written gives the CPU set, the memory in whole MiB, and every node with memory with its memory, policy and as many CPUs |
| VmRoundTrip.RoundTripIff | pkg/proxmox/resources/vm/resources.go:33-168 | The NUMA nodes come back unchanged if and only if every node has memory and the guest CPUs were numbered consecutively |
| VmRoundTrip.PlacementSurvives | pkg/providers/cloudcapacity/cpumanager/policy_static.go:185-206 | A static placement survives the round trip unchanged if and only if it has at least one MiB |
| DiscoveryVm.BuildVMOptions | cmd/proxmox-scheduler/proxmox.go:97-148 | The options of the discovery VM |
| DiscoveryVm.NodeSettingsFromVM | pkg/providers/cloudcapacity/resourcemanager/resourcemanager.go:267-323 | The settings read from a VM, with the fallback to its CPU set, or one of the two errors |
| DiscoveryVm.PartByPart | pkg/providers/cloudcapacity/resourcemanager/resourcemanager.go:281-290 | The affinity list read part by part keeps the order of the parts |
| DiscoveryVm.OverlayAll | pkg/providers/cloudcapacity/resourcemanager/resourcemanager.go:292-313 | The loop over the nodes writes each over the settings, in any map order |
| DiscoveryVm.DiscoveryVmFaithful | cmd/proxmox-scheduler/proxmox.go:112-143 | For distinct nodes, reading back what was written gives exactly the nodes with CPUs and at least one GiB, with exactly their CPUs and the memory they offer |
| DiscoveryVm.DiscoveryVmTotals | cmd/proxmox-scheduler/proxmox.go:97-148 | The discovery VM has the cores of the machine; with nodes listed its memory is what those with CPUs offer and its affinity are their CPUs, otherwise its memory is that of the machine |
| DiscoveryVm.SettingsRead | pkg/providers/cloudcapacity/resourcemanager/resourcemanager.go:267-323 | The settings as numbers: guest CPU i is the i-th of the affinity list and memory is in MiB; nodes the VM does not name stay; without any node its CPU set and memory become node 0; refused exactly when a guest CPU lies beyond the list |
| DiscoveryVm.DiscoveryVmReadable | pkg/providers/cloudcapacity/resourcemanager/resourcemanager.go:267-323 | The reading method never refuses the discovery VM, and returns those settings as soon as one node has CPUs and one GiB |
| DiscoveryVm.DiscoveryVmSplits | cmd/proxmox-scheduler/proxmox.go:135-135 | No entry of the discovery VM can fail to split |
| IPPools.IPPool.Next | pkg/providers/nodeipam/ipam/ippool.go:124-156 | Sets exactly one bit and returns its address, never the network address: the first free address from the hint on, or from the first host address on if the hint is none, going round; where it began if none is free |
| IPPools.IPPool.Occupy | pkg/providers/nodeipam/ipam/ippool.go:102-122 | True exactly for a free host address, which is then taken |
| IPPools.IPPool.Release | pkg/providers/nodeipam/ipam/ippool.go:158-176 | Clears exactly the bit of the address, or reports that it is out of range |
| IPPools.IPPool.IsEmpty | pkg/providers/nodeipam/ipam/ippool.go:64-69 | True exactly when no address is taken |
| IPPools.IPPool.Size | pkg/providers/nodeipam/ipam/ippool.go:71-84 | The loop counts the taken addresses |
| IPPools.FirstFreeExact | pkg/providers/nodeipam/ipam/ippool.go:140-146 | The search finds the first free index in cyclic order from the hint; on a full pool it comes back to where it started |
| IPPools.NextTakes | pkg/providers/nodeipam/ipam/ippool.go:124-156 | That search in terms of addresses |
| IPPools.FullPoolRepeats | pkg/providers/nodeipam/ipam/ippool.go:124-156 | The second Next on a /31 gives its one address again |
| IPPools.HostIndexInverts | pkg/providers/nodeipam/ipam/ippool.go:178-192 | HostIndex inverts the map from indices to addresses, gives -1 for the network address and an error exactly outside the network |
| PoolRuns.HeldDistinct | pkg/providers/nodeipam/ipam/ippool.go:102-176 | Over every run in which no Next meets a full pool the addresses held are pairwise different and the bitmap counts them |
| PoolRuns.PerformAll | pkg/providers/nodeipam/ipam/ippool.go:102-176 | The runs are those of the pool: any sequence of Next, Occupy and Release on a new pool ends in the state of the run |
| PoolRuns.Perform | pkg/providers/nodeipam/ipam/ippool.go:102-176 | One such call is one step |
| PoolRuns.TookConsistent | pkg/providers/nodeipam/ipam/ippool.go:124-156 | Taking an address keeps them different if and only if the pool had a free one |
| NodeIpam.Reached | pkg/providers/nodeipam/nodeipam.go:95-154 | Over every run of the two operations, of two subnets in the list the earlier is disjoint from the later or strictly inside it |
| NodeIpam.FirstMatchIsLongestPrefix | pkg/providers/nodeipam/nodeipam.go:95-189 | Over every run of AllocateOrOccupyCIDR and ReleaseCIDR the first subnet holding an address is strictly inside every other that does |
| NodeIpam.NewNests | pkg/providers/nodeipam/nodeipam.go:107-126 | A prefix whose network address an older subnet does not hold is disjoint from it or strictly around it |
| NodeIpam.MeetNests | pkg/providers/nodeipam/nodeipam.go:112-116 | Where two prefixes meet, the longer lies inside the other |
| NodeIpam.WiderPrefixIsLost | pkg/providers/nodeipam/nodeipam.go:107-130 | A wider prefix with the network address of a narrower subnet gets no subnet, and its address none that holds it |
| NodeIpam.MissedIffInside | pkg/providers/nodeipam/nodeipam.go:107-130 | A subnet that holds the network address of a prefix misses some address of the prefix if and only if it lies strictly inside it |
| NodeIpam.OverlappingSubnetsShare | pkg/providers/nodeipam/nodeipam.go:95-189 | Over every run, two subnets of the list can hand out a common address if and only if the earlier lies strictly inside the later and is no /32 |
| NodeIpam.SameAddressTwice | pkg/providers/nodeipam/nodeipam.go:168-189 | Two nested subnets and four calls, the last of which returns the address of the first |
| NodeIpam.Provider.AllocateOrOccupyCIDR | pkg/providers/nodeipam/nodeipam.go:95-133 | The new list of subnets, the one pool that changes and the one bit that is set |
| NodeIpam.Provider.ReleaseCIDR | pkg/providers/nodeipam/nodeipam.go:135-154 | The new list of subnets |
| NodeIpam.Provider.OccupyIP | pkg/providers/nodeipam/nodeipam.go:168-192 | From the first subnet that holds the given address, the first free address from that one on, marked there and nowhere else; no address if no subnet holds it |
| NodeIpam.TakenServes | pkg/providers/nodeipam/nodeipam.go:168-192 | That answer from the specification function |
| NodeIpam.Provider.ReleaseIP | pkg/providers/nodeipam/nodeipam.go:204-227 | The bit cleared in the first subnet that holds the address; no other pool changes |
| Reconcilers.Reconciler.OnTick | pkg/utils/reconciler/reconciler.go:297-311 | The in-place compaction leaves exactly what the specification keeps of the old queue, in order, and makes exactly the due calls |
| Reconcilers.Reconciler.TickOne | pkg/utils/reconciler/reconciler.go:301-309 | One turn of it: the write position never passes the read position |
| Reconcilers.Reconciler.Arrive | pkg/utils/reconciler/reconciler.go:273-295 | An arrival replaces the pending entry for the same event, is reconciled at once, or waits |
| Reconcilers.Reconciler.ProcessRetryableEvent | pkg/utils/reconciler/reconciler.go:320-347 | One call of the handler, and the entry to retry if it failed and may be |
| RetryQueue.TickKeeps | pkg/utils/reconciler/reconciler.go:301-309 | A tick keeps exactly the entries not yet due and, with one more attempt and their next time, the due ones that failed and have attempts left |
| RetryQueue.TickAppends | pkg/utils/reconciler/reconciler.go:301-309 | A tick works entry by entry in order |
| RetryQueue.TickOfOne | pkg/utils/reconciler/reconciler.go:301-309 | What a tick makes of a single entry, and the call it makes |
| RetryQueue.DelayDoubles | pkg/utils/reconciler/reconciler.go:320-347 | The delay begins at the base delay, doubles with every attempt and stops at the largest one |
| RetryQueue.ArrivalIs | pkg/utils/reconciler/reconciler.go:273-295 | What an arrival does, for entries with and without attempts |
| RetryQueue.QueueBounded | pkg/utils/reconciler/reconciler.go:261-347 | Over every run: one pending entry an event, at most MaxRetries attempts, no submission reconciled more than MaxRetries + 1 times |
| RetryQueue.NothingDroppedEarly | pkg/utils/reconciler/reconciler.go:261-347 | A submission neither pending nor replaced has succeeded or has failed MaxRetries + 1 times |

## Left out

- Distributed.TakeByTopologyNUMADistributed: asks that the loops of the original end, because the code does not return otherwise: `LoopsEnd` says of each combination the search gets to that its remainder loops end, `LastEnds` the same of the loop that carries the plan out, whichever best plan the search settles on. It says that the plan is served only for at most three groups or four free nodes, `FiveServed` also for five; with six it need not be. Backing arrays grow from one element to two, four, eight and so on, as the Go runtime lets short slices of int grow.
- Distributed.SearchIsExhaustive: the mean and standard deviation in floating point are any non-negative real score, without rounding.
- CacheOrder.PackedTakesCaches: says which caches come first where caches nest in NUMA nodes or less than an average cache is needed; where a cache cuts NUMA nodes and an average cache is still needed only `PackedExactly` and `TakeUnitsAccount` speak of that stage.
- PackedModel.PackedCorrect: asks in the cache-aligned mode that caches that cut NUMA nodes be larger than half the request; `PackedExactIff` is the statement without that condition.
- StaticPolicies.StaticPolicy.AllocateOrUpdate: keeps the partition of the CPUs for VMs on CPUs of the machine, as does Release; others enter the used set, as in the original.
- Restart.PlacementReplays: the options are those of GenerateVMOptionsFromResources; the instance provider passes the same cores, affinity, nodes and whole MiB to the clone request of its client library (pkg/providers/instance/instance_utils.go:116-119), whose encoding is not part of this model.
- Restart.DeletionSettles: the request built from the node claim when a configuration cannot be read is left out.
- Restart.RestartRestores: for VMs that the static policy placed for requests with an id, without preset nodes and without an affinity, as the instance provider makes them.
- ResourceManagers.ResourceManager.Allocate: keeps the books those of the live VMs only for requests without preset NUMA nodes and without an affinity; with preset nodes the charge can exceed what was checked and the original's unsigned counter wraps around.
- ResourceManagers.ResourceManager.AllocateOrUpdate: keeps them only for VMs on unused CPUs and known nodes.
- Discovery.DiscoverFromSettings: CPU ids are not negative in the original, so Euclidean and truncated division agree; when two nodes list one CPU the model allows either.
- VmConfig.GetResourceFromVM: CPU lists are sequences of ranges and NUMA entries are values; their text forms and the errors of parsing them are not modelled.
- DiscoveryVm.NodeSettingsFromVM: the same holds for the settings read from the discovery VM.
- IPPools.IPPool.Next: on a /32 it marks a bit and returns no address, as the original does; IPv6 pools are left out.
- Reconcilers.Reconciler.OnTick: one event at a time; the channel, its capacity and a handler that sends events itself are not modelled, nor the rounding of the delay.
- Wrap-around of unsigned memory sums and of 64-bit integers: all numbers are unbounded.
- The static policy's options other than those its constructor sets: they are constant in the original.
- Per-level query and sort functions that differ only in the field they read are one function indexed by the level.
- Discovery from cAdvisor, the overriding of settings by a file, and the loading of that file.
- The synchronisation of capacity, network and storage with the cluster, sorting of zones by load, instance types and prices.
- Node addresses taken from Kubernetes nodes, Slaac and IPv6.
- Locks, goroutines and loggers: every operation is one atomic step.
