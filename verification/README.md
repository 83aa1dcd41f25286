# Verification of the flannel network plugin

This project models the parts of the plugin in which state is shared or encoded, and proves what they promise.
`dafny verify dfyconfig.toml` checks everything.

**Subnet reservation** (`Cidr`, `SubnetProtocol`, `ClusterSafety`, `AddressSpace`, `Tiling`, `NetworkRanges`).
Nodes claim pool-sized subnets through etcd transactions and hear of each other through a watch. `SubnetProtocol`
gives each etcd transaction and each reaction of a node as a step on values and defines the runs of any number of
nodes, with late and lost events, lost requests and answers, and restarts. `ClusterSafety` holds the invariants.
`AddressSpace` is the class of one node: its methods are proved equal to the protocol's functions, with transactions
of other nodes before each of its requests, and `LoopInRunIsDrive` places its loop back into the runs of the cluster.
`Tiling` cuts the address space, and `NetworkRanges` puts both together.

**The address pool of one host** (`PoolRecords`, `PoolStates`, `Pool`). Up to four etcd keys describe an address;
guarded transactions change them; a cache in memory sits over them. One host writes, so there is no second actor, but
any request or answer may be lost. `PoolStates` has the state machine and its runs: a lost answer puts an address in
doubt, an answer or a full read settles it, and everything not in doubt agrees with etcd. `Pool` has the class whose
methods take exactly its steps, with the loop that picks addresses turn by turn.

**The replicated stores** (`EventLog`, `Listening`, `Stores`, `ShardedReplication`, `ShardedStore`, `Equality`).
`EventLog` has transactions, the event log and replay. A listener (`Listening`) starts from `GetAll` and applies every
handler call to its own copy; a call that does not fit the copy would be an error, and none ever is.

**Address arithmetic** (`IpMath`, `NextFit`), **names and keys** (`GoText`, `Keys`), **the DNS resolver**
(`ResolverIndex`, `NameLookup`, `Resolver`), **firewall marks** (`Fwmarks`) and **the concurrent map**
(`ConcurrentMap`). `Basics` has options, results, faults and map lookups.

## What turned out to be false, and exactly when

- A pool that is released while the request gets lost can own two subnets later, although no release ever commits.
  `LostReleaseBreaksUniqueness` is a run that does it. `LostReleaseExactly`: an undisturbed new request of the pool,
  through its whole loop, gives it a second subnet if and only if some subnet on the node's list is still free in etcd.
  Pools that nobody began to release keep at most one subnet in such runs (`OneSubnetPerPool`).
- An address named in another spelling than the one it prints as (`::ffff:10.0.0.5`, `::FFFF:a00:5` and many more) is
  stored in etcd under its dotted spelling but cached as spelled: the cache then disagrees with etcd
  (`MappedSpellingDisagrees`). An empty MAC or service id is cached with a data key that is never stored, and leaves
  records that spell neither a container nor a service (`EmptyMacDisagrees`, `GrantKeepsRecords`). The cache stays what
  etcd decodes to exactly if the text is the one the address prints as and the MAC or service id is not empty
  (`TakeKeepsCache`).
- After a grant whose answer is lost the address still shows as unused, exactly unless it was held for the same claim
  since the same second (`UnheardGrantExactly`), and only who may take it from that claim gets it
  (`NextAfterUnheardGrant`). The loop that picks an address then never ends if no address it may pick is to be had
  (`NeverEnds`; with next fit exactly then, `NextFitNeverEnds`), as for another container and a pool of one address
  (`UnheardGrantSticks`). With no unused address in doubt it always ends with its first turn (`FirstTurnDecides`).
- After a release whose answer is lost the next release is refused, and the refusal reads the type and time of an
  allocation that etcd no longer has: the source's index into an empty list fails (`UnheardReleaseExactly`,
  `UnheardReleaseFails`). In general that happens exactly where etcd has the address free (`RefusalReportsHolder`,
  `EtcdPool.ReleaseIPIfReserved`).
- `Sync` of the sharded store does not store the node's own shard if etcd has no key of that shard yet
  (`ShardedStore.Sync`); `SyncOverEmptyEtcd` is a node whose item etcd never gets.
- `DeleteItem` of the sharded store with the id of an item in another shard takes it out of the flat view while its
  shard keeps it (`ShardedStore.DeleteItem`, with `DeleteOfOtherShard`), and `AddOrUpdateItem` with such an id puts it
  into both shards (`ShardedStore.AddOrUpdateItem`, with `AddOfOtherShard`).
- `GetItem` returns an empty shard key for an item that the watch has brought (`HeardWithoutKey`), and the right one
  otherwise; whether an item is the node's own can always be told from it (`ShardedStore.GetItem`).
- `PutIfNewOrChanged` stores nothing if somebody removes the key between its two transactions (`StoredUnlessRemoved`,
  with `RemovedInBetween`).
- The list of marks that cleaning up returns can miss marks that were removed. A mark is in it exactly if it is that of
  the last entry read of some unlisted service (`CleanUpStaleFwmarks`), so whatever the order exactly if some unlisted
  service had this mark and no other (`AlwaysReturned`, with `TwoMarksOneReturned`). `Release` of a mark returns no error
  when its transaction is refused, because `errors.WithMessagef` of nil is nil (plugin/pkg/service_lb/fwmarks.go:149).
- The handler of deleted subnets never does anything, because the event carries no value (`DeletionsAreIgnored`).
- `AddContainer` for a container that is known under a name it has lost leaves that name in the index
  (`AddKeepsIndex`, with `AddedAgainKeepsOldName`), and `RemoveContainer` leaves names that the info given lacks
  (`DropKeepsIndex`, with `RemovedWithOtherInfoStays`).
- A pool size over 32 is an error except where the number of subnets overflows: a size of 100 over a /8 gives no
  subnets and no error (`GenerateAllSubnets`, with `HundredGivesNothing`).
- "Already reserved for this same MAC" is a condition that never holds (`ReservedWithMacNeverFires`), as its comment
  in the source says.

## Assumptions

Etcd compares the value of a missing key as different from everything, for "equal" and for "not equal" alike; a
missing key has create revision zero; a deletion event carries no value. Times are integers passed in by the caller,
the random pick is any element, the hash and the suffixes of mark names are arbitrary functions, and the order in which
Go ranges over a map is arbitrary. One call to the clock stands for all calls within one operation, or within one turn
of the loop that picks addresses.
The address space's pool id is the flannel network id itself, and never empty: `getOrCreateNetwork` refuses an empty one
(plugin/pkg/driver/flannel_driver.go:299-306). What `net.ParseIP` makes of an IPv6 text is an arbitrary function.

## Model

| member | source | states |
|---|---|---|
| ClusterSafety.OneSubnetPerPool | plugin/pkg/ipam/address_space.go:108-145 | In every run in which no release commits, with any number of nodes, late or lost events, lost requests and answers, lost releases and restarts: a pool nobody began to release owns at most one subnet; whatever a node maps is owned in etcd by that pool; nodes that know an unreleased pool agree on its subnet. |
| ClusterSafety.ClaimIsUnique | plugin/pkg/ipam/address_space.go:112-131 | When the head of a node's unused list is free in etcd, everything before it in the list is claimed, and the pool the node reserves for, unless its release was begun, owns nothing yet. |
| ClusterSafety.StepAgrees | plugin/pkg/ipam/address_space.go:36-228 | Every step except a committed release keeps: subnets are claimed in list order; no pool outside the releases begun owns two; each node's list is a sublist whose missing elements are owned by pools the node knows, has found in its loop, or whose release was begun; what a node maps is true and off its list. |
| ClusterSafety.RunAgrees | plugin/pkg/ipam/address_space.go:36-228 | That invariant holds in every state of every run in which no release commits. |
| ClusterSafety.DeliverAgrees | plugin/pkg/ipam/address_space.go:180-203 | The watch handler of a claimed subnet keeps a node's view true. |
| ClusterSafety.DeliverPut | plugin/pkg/ipam/address_space.go:188-201 | Hearing of a claim of an unknown pool maps it and takes just that subnet off the list; of a known pool it changes nothing. |
| ClusterSafety.CaughtUpKnowsAll | plugin/pkg/ipam/address_space.go:172-203 | In every run in which no release commits, a node that has missed no event since it started, and has none left to hear, knows the subnet of every pool nobody began to release; if none was begun, its list is exactly the subnets free in etcd, in their order. |
| ClusterSafety.LogIsHistory | plugin/pkg/ipam/address_space_etcd.go:54-105 | In every run, releases included, the events of the log add up to exactly what etcd holds. |
| ClusterSafety.StartAgrees | plugin/pkg/ipam/address_space.go:36-75 | A node that starts, or restarts at any time, from a snapshot of etcd has a true view. |
| ClusterSafety.ExhaustedOnlyWhenAllClaimed | plugin/pkg/ipam/address_space.go:113-115 | In such a run a loop that finds no unused subnet left does so only if every subnet is claimed in etcd, none of them for its own pool unless its release was begun. |
| ClusterSafety.UnreleasedPoolsAreSafe | plugin/pkg/ipam/address_space.go:111-167 | In every run, whatever else is released, a pool nobody has begun to release is owned in etcd wherever a node maps it, and two such pools never share a subnet on any nodes. |
| ClusterSafety.StepIsMove | plugin/pkg/ipam/address_space.go:108-203 | Every step, releases included, leaves the acting node honest, keeps the log and only lets the ownership of unreleased pools grow. |
| ClusterSafety.RunIsHonest | plugin/pkg/ipam/address_space.go:108-203 | In every run every node maps unreleased pools only to subnets they own in etcd. |
| ClusterSafety.DeletionsAreIgnored | plugin/pkg/ipam/address_space.go:207-224 | In every run a deletion event leaves every node as it was. |
| ClusterSafety.LostReleaseBreaksUniqueness | plugin/pkg/ipam/address_space.go:147-170 | A concrete run in which no release commits and one release is lost, after which that pool owns two subnets. |
| AddressSpace.LostReleaseExactly | plugin/pkg/ipam/address_space.go:108-170 | From any agreed state, a lost release followed by a new, undisturbed request of the same pool, through its whole loop, gives it a second subnet if and only if some subnet on the node's list is free in etcd. |
| AddressSpace.GetUsedSubnets | plugin/pkg/ipam/address_space_etcd.go:20-47 | Reading etcd's records in any order maps every owning pool to one of its subnets, and nothing else. |
| AddressSpace.Space.constructor | plugin/pkg/ipam/address_space.go:36-75 | A node starts with the used subnets of etcd and the rest of the list, in order. |
| AddressSpace.Space.GetOrAddPool | plugin/pkg/ipam/address_space.go:108-145 | A known pool is returned untouched; otherwise the node, etcd and the result are what the protocol's loop leaves, found reservations of others included: a subnet returned was on the list, is mapped, and is the pool's in etcd; without one the pool stays unknown. |
| AddressSpace.Space.GetNewOrExistingPool | plugin/pkg/ipam/address_space.go:79-86 | The same, old or new pool alike. |
| AddressSpace.Space.GetNewPool | plugin/pkg/ipam/address_space.go:96-106 | Only a new pool is returned; every failure reads as "already exists". |
| AddressSpace.Space.ReleasePool | plugin/pkg/ipam/address_space.go:147-170 | The node and etcd after a release are the protocol's. Granted: the pool is forgotten, its subnet is at the end of the list and free in etcd. Refused: the subnet is mapped to the pool that owns it in etcd, the list is as before. Without an answer the pool is forgotten and the list is as before. |
| AddressSpace.ReleasedIsUsable | plugin/pkg/ipam/address_space.go:147-170 | After a granted release the next undisturbed request, for any pool that owns nothing on the node's list, succeeds. |
| AddressSpace.Space.HandleEvents | plugin/pkg/ipam/address_space.go:172-228 | The watch loop applies the events one by one as the protocol does: pools that were known stay on their subnets, the pool of every claim is known afterwards, and a single claim of an unknown pool maps it and takes just its subnet off the list. |
| AddressSpace.DriveResult | plugin/pkg/ipam/address_space.go:108-145 | The loop ends having succeeded exactly if the node then maps the pool; the subnet is the pool's in etcd whatever others did; it takes subnets off the list in order and reports exhaustion only with an empty list. |
| AddressSpace.DriveAlone | plugin/pkg/ipam/address_space.go:108-145 | Undisturbed, the loop of a pool that owns nothing on the node's list succeeds if and only if some subnet on the list is free, takes a free one and passes those of others. |
| AddressSpace.OthersAreTransactions | plugin/pkg/ipam/address_space_etcd.go:54-105 | Whatever another node does, etcd sees exactly the transactions that its step commits, and the first node does not change. |
| AddressSpace.LoopInRunIsDrive | plugin/pkg/ipam/address_space.go:108-145 | In every run of the cluster, a reservation loop with anything happening in between leaves the node and etcd as the loop computes from the faults of its own turns and the transactions that the other steps committed before each. |
| Tiling.GenerateAllSubnets | plugin/pkg/ipam/util.go:10-24 | Returns the tiles of all spaces in order; fails exactly if the pool size is over 32 and the number of subnets of some space, 2 to its distance from the pool size, does not overflow. |
| Tiling.HundredGivesNothing | plugin/pkg/ipam/util.go:10-24 | A pool size of 100 over 10.0.0.0/8 gives no subnets and no error. |
| Tiling.CountPoolSizeSubnets | plugin/pkg/driver/flannel_driver.go:462-479 | Counts exactly the generated subnets, spaces smaller than the pool size included; for any pool size the sum wraps at 64 bits. |
| Tiling.CountIsTiles | plugin/pkg/driver/flannel_driver.go:462-479 | The count, before it wraps, is the number of generated subnets. |
| Tiling.SubnetIsTile | plugin/pkg/ipam/util.go:13-19 | The library's subnet of a number is the tile of that number, or an error if the pool size is over 32. |
| Tiling.TileValid | plugin/pkg/ipam/util.go:14-19 | Each tile is an aligned block inside its space. |
| Tiling.TilesOfSpace | plugin/pkg/ipam/util.go:12-19 | The tiles of one space are disjoint and cover it exactly, or not at all if it is too small. |
| Tiling.TilesInOrder | plugin/pkg/ipam/util.go:12-22 | The subnets come space by space in the order of the spaces, and within one by address. |
| Tiling.TilesAreExact | plugin/pkg/ipam/util.go:10-24 | Over disjoint spaces the tiles are valid, pairwise disjoint, of the pool size, and hold exactly the addresses of the spaces no smaller than the pool size. |
| NetworkRanges.NetworksNeverOverlap | plugin/pkg/ipam/address_space.go:36-170 | In every run over the generated subnets two unreleased networks, on any pair of nodes, share no address. |
| NetworkRanges.NetworksAgree | plugin/pkg/ipam/address_space.go:36-145 | In every run in which no release commits, all nodes that know a network nobody began to release know the same range for it. |
| PoolRecords.GrantableIsMayTake | plugin/pkg/ipam/pool_etcd.go:119-187 | The condition lists give an address exactly to those who may take it: anyone if free, a container or service if merely reserved, the same container or service again. |
| PoolRecords.ReservedWithMacNeverFires | plugin/pkg/ipam/pool_etcd.go:135-139 | In well-formed records "reserved with this same MAC" never holds. |
| PoolRecords.GrantEffect | plugin/pkg/ipam/pool_etcd.go:189-229 | A granted address is held for its claim (with a MAC or service id that is not empty), other addresses are as before, the records stay well formed. |
| PoolRecords.GrantKeepsRecords | plugin/pkg/ipam/pool_etcd.go:189-229 | Granting keeps the records well formed if and only if the MAC or service id is not empty. |
| PoolRecords.ReleaseSucceeds | plugin/pkg/ipam/pool_etcd.go:48-75 | A release takes the success branch if and only if etcd has the address for the holder that the allocation names. |
| PoolRecords.ReleaseEffect | plugin/pkg/ipam/pool_etcd.go:62-69 | A release frees the address and changes no other. |
| PoolRecords.RefusalReportsHolder | plugin/pkg/ipam/pool_etcd.go:75-115 | In well-formed records a refused release reports exactly the allocation the address has, and has none to report exactly if the address is free. |
| PoolRecords.GetAllocations | plugin/pkg/ipam/pool_etcd.go:246-309 | From any keys, in any order, partial or unreadable ones included, decoding gives an allocation for exactly the addresses that some key says something of, holding exactly that: a type and address only where the address can be read, a time only where it is one; from well-formed records, exactly the allocation of each address that is not free. |
| PoolRecords.ParsedRendered | plugin/pkg/ipam/pool_etcd.go:19-37 | The keys as text parse back to the same typed pairs. |
| PoolRecords.DecodeEncoded | plugin/pkg/ipam/pool_etcd.go:246-309 | Encoding any map of proper allocations, rendering the keys as text below any prefix, listing the pairs in any order, parsing and decoding them gives the map back, times cut to whole seconds. |
| PoolStates.AgreementIsDecoding | plugin/pkg/ipam/pool.go:272-291 | With nothing in doubt, agreeing address by address is the same as the cache being, in whole seconds, what etcd's records decode to. |
| PoolStates.TakeKeepsCache | plugin/pkg/ipam/pool.go:111-146 | Allocating a named address leaves the cache what etcd decodes to if and only if the text is the one the address prints as, and the MAC or service id is not empty. |
| PoolStates.MappedSpellingDisagrees | plugin/pkg/ipam/pool.go:111-146 | A fresh pool with one host address, asked for it as `::ffff:10.0.0.5`: it is granted, and the cache disagrees with etcd. |
| PoolStates.EmptyMacDisagrees | plugin/pkg/ipam/pool_etcd.go:200-203 | A fresh pool that gives its address to a container with an empty MAC: the cache disagrees with etcd. |
| PoolStates.TakeKeepsInv | plugin/pkg/ipam/pool.go:129-137 | An answered grant keeps cache and partition right and settles the address if it was in doubt. |
| PoolStates.UnheardGrantExactly | plugin/pkg/ipam/pool_etcd.go:189-229 | A grant whose answer is lost puts the address in doubt, except exactly if it was in doubt before or is held for the same claim since the same second. |
| PoolStates.NextAfterUnheardGrant | plugin/pkg/ipam/pool_etcd.go:119-187 | After such a grant exactly those get the address who may take it from the claim that was lost. |
| PoolStates.UnheardGrantBlocks | plugin/pkg/ipam/pool.go:184-217 | A fresh pool with one address, granted to one container without the answer: it still shows as unused, and no other container gets it. |
| PoolStates.UnusedIsGrantable | plugin/pkg/ipam/pool.go:184-217 | An address the cache shows as unused is free in etcd unless it is in doubt, so anyone gets it at the first attempt. |
| PoolStates.CachedIsReleasable | plugin/pkg/ipam/pool.go:235-252 | Releasing a cached allocation succeeds if and only if etcd has the address for the same holder; always, unless it is in doubt. |
| PoolStates.UnheardReleaseExactly | plugin/pkg/ipam/pool.go:231-258 | A release whose answer is lost puts the address in doubt; releasing it again is refused with nothing to report. |
| PoolStates.UnheardReleaseFails | plugin/pkg/ipam/pool.go:231-258 | A fresh pool that gives its address, releases it without the answer, and tries again: refused with nothing to report. |
| PoolStates.ReleaseKeepsInv | plugin/pkg/ipam/pool.go:231-258 | Whatever becomes of a release, everything not in doubt stays right; a refused one that finds another holder settles the address too. |
| PoolStates.GiveBackKeepsInv | plugin/pkg/ipam/pool.go:254-255 | An answered release of an address not in doubt frees it and keeps the invariant. |
| PoolStates.RestsFiveMinutes | plugin/pkg/ipam/pool.go:254-300 | After a release an address may be picked again exactly if more than five minutes have passed, or if no unused address has rested that long. |
| PoolStates.ReadRestsAll | plugin/pkg/ipam/pool.go:272-300 | Of the addresses that a reading of etcd finds unused none may be picked before another. |
| PoolStates.UnheardClearExactly | plugin/pkg/ipam/pool.go:260-270 | Releasing everything without the answer is harmless if and only if every cached address was in doubt. |
| PoolStates.SyncGivesInv | plugin/pkg/ipam/pool.go:272-291 | Reading etcd establishes the invariant with nothing in doubt. |
| PoolStates.SyncFindsNothing | plugin/pkg/ipam/pool.go:303-312 | With nothing unused and nothing in doubt, reading etcd again finds nothing unused either. |
| PoolStates.MoveKeepsInv | plugin/pkg/ipam/pool.go:102-291 | Every operation keeps the invariant, with its request or its answer lost or not. |
| PoolStates.RunKeepsInv | plugin/pkg/ipam/pool.go:76-291 | In every run, with requests and answers lost anywhere, whose cached named addresses are spelled as they print and whose MACs and service ids are not empty: cache and etcd agree on every address not in doubt; allocated and unused are disjoint, cover all host addresses, and hold only these and addresses that were named. |
| PoolStates.CacheIsDecoding | plugin/pkg/ipam/pool.go:76-291 | In such a run the cache is exactly what etcd decodes to as long as no answer is lost, and again after each full read. |
| PoolStates.RecordsStayWellFormed | plugin/pkg/ipam/pool_etcd.go:48-229 | In every run of committed transactions with MACs and service ids that are not empty, lost answers included, the keys of every address are all absent, or spell reserved, container or service. |
| PoolStates.HeldUntilReleased | plugin/pkg/ipam/pool_etcd.go:119-174 | In every run an address held for a MAC or a service stays with it until it is released. |
| Pool.RecordStore.AllocateIPByCondition | plugin/pkg/ipam/pool_etcd.go:189-229 | Trying the conditions one after the other, with a fault at any of the requests, grants exactly if one of them holds and no request before it is lost; the host learns of it exactly if the answer arrives. |
| Pool.RecordStore.ReleaseAllocation | plugin/pkg/ipam/pool_etcd.go:48-115 | Deletes the four keys exactly if the conditions hold and the request arrives; a refusal returns the allocation that etcd has instead. |
| Pool.RecordStore.List | plugin/pkg/ipam/pool_etcd.go:246-252 | Lists the pairs in any order. |
| Pool.TurnMoves | plugin/pkg/ipam/pool.go:184-217 | A turn of the loop that grants an address, heard of or not, is a step of the pool's state machine. |
| Pool.LoopTracks | plugin/pkg/ipam/pool.go:184-217 | The whole loop, with any faults in any of its turns, keeps the invariant if and only if it grants nothing or the MAC or service id is not empty. |
| Pool.FirstTurnDecides | plugin/pkg/ipam/pool.go:184-217 | With no unused address in doubt the loop ends with its first turn. |
| Pool.LoopTells | plugin/pkg/ipam/pool.go:184-217 | What the caller of the loop is told is what happened: an address that was unused and is now held in etcd for the claim and cached; that nothing is unused; or that a request or reading was lost. |
| Pool.NeverEnds | plugin/pkg/ipam/pool.go:184-217 | If no address that may be picked is to be had for the claim, the loop turns forever and changes nothing. |
| Pool.NextFitNeverEnds | plugin/pkg/ipam/pool.go:184-217 | With next fit and one latest allocation it turns forever if and only if the address it picks is not to be had. |
| Pool.UnheardGrantSticks | plugin/pkg/ipam/pool.go:184-217 | A pool of one address whose grant to one container was not heard turns forever for another container. |
| Pool.NamedTracks | plugin/pkg/ipam/pool.go:111-146 | Asking for a named address, with any fault, keeps the invariant if and only if etcd is left alone, or the MAC or service id is not empty and a cached text is the one the address prints as. |
| Pool.NamedCache | plugin/pkg/ipam/pool.go:123-137 | A named address that is given leaves the cache what etcd decodes to, with nothing in doubt before, under exactly that condition. |
| Pool.EndTells | plugin/pkg/ipam/pool.go:111-182 | What the caller of a named request is told: that very address, held in etcd for the claim and cached under the text, or that a request was lost. |
| Pool.EtcdPool.constructor | plugin/pkg/ipam/pool.go:76-95 | A pool over whatever well-formed records an earlier process left; its addresses are those of the subnet except network, gateway and broadcast. |
| Pool.EtcdPool.SyncIPs | plugin/pkg/ipam/pool.go:272-291 | Unless the reading fails, the cache becomes the decoded records, the other host addresses become unused, and nothing stays in doubt. |
| Pool.EtcdPool.GetAvailableUnusedIPs | plugin/pkg/ipam/pool.go:293-325 | Offers exactly the addresses unused for over five minutes or, failing these, all unused ones, after reading etcd again if there are none. |
| Pool.EtcdPool.AttemptFreeIP | plugin/pkg/ipam/pool.go:185-216 | One turn: an offered address, unless random the circular successor of the latest allocation, is asked for; how the turn ends and what it leaves follow from etcd's records and the fault. |
| Pool.EtcdPool.AllocateFreeIP | plugin/pkg/ipam/pool.go:184-217 | The loop, turn by turn under any faults; the invariant survives exactly if nothing is granted or the claim's MAC or id is not empty; one turn is enough if no unused address is in doubt. |
| Pool.EtcdPool.PickIP | plugin/pkg/ipam/pool.go:192-201 | Any offered address, or the next one after the latest allocation. |
| Pool.EtcdPool.AllocatePreferred | plugin/pkg/ipam/pool.go:111-146 | A text that does not parse is an error; an IPv4 address in the subnet, in whatever spelling, is given if the claim may take it and the requests are answered; a fault is an error; anything else takes a free address. The address returned is the one named or one that was unused, etcd has it for the claim, and the cache has it. The exact condition under which the invariant survives. |
| Pool.EtcdPool.AllocateContainerIP | plugin/pkg/ipam/pool.go:111-146 | That, for a container's MAC, empty or not. |
| Pool.EtcdPool.AllocateServiceVIP | plugin/pkg/ipam/pool.go:148-182 | That, for a service id. |
| Pool.EtcdPool.ReserveIP | plugin/pkg/ipam/pool.go:102-109 | Reserves a free address under any faults and always keeps the invariant: the address returned was unused and is now reserved in etcd and cached; none is left exactly if the last turn found nothing unused; an error exactly if its request or reading was lost. |
| Pool.EtcdPool.ReleaseIPIfReserved | plugin/pkg/ipam/pool.go:231-258 | Which of five ends a release has: not known, no answer, freed (free in etcd, out of the cache, unused from now), held differently (the cache then says what etcd has), or the source fails because etcd has the address free; freed for every known address not in doubt if answered. The invariant always survives. |
| Pool.EtcdPool.ReleaseIP | plugin/pkg/ipam/pool.go:219-229 | For an address not in doubt an answered call is an error exactly if the address is not allocated. |
| Pool.EtcdPool.ReleaseAllIPs | plugin/pkg/ipam/pool.go:260-270 | Empties etcd and the cache, and all host addresses are unused from now; if the answer or the reading after it is lost, the cached addresses are in doubt. |
| EventLog.KvServer.PutIfNewOrChanged | plugin/pkg/etcd/connection.go:18-40 | Two guarded transactions, with others acting between them. |
| EventLog.StoredUnlessRemoved | plugin/pkg/etcd/connection.go:18-40 | The value is stored if and only if the key was new or is still there for the second transaction; otherwise the key is absent and nothing is reported written. |
| EventLog.RemovedInBetween | plugin/pkg/etcd/connection.go:18-40 | A key with another value, removed between the two transactions: afterwards it is absent and nothing was reported written. |
| EventLog.SingleWriterStores | plugin/pkg/etcd/connection.go:18-40 | With one writer the value is always stored, and written only if it was not there already. |
| EventLog.ReplayTwice | plugin/pkg/etcd/sharded_distributed_store.go:379-443 | Replaying events that already led to a content changes nothing. |
| EventLog.CommitCatchesUp | plugin/pkg/etcd/sharded_distributed_store.go:379-443 | Any transaction by anyone keeps a replica on track. |
| EventLog.DeliverCatchesUp | plugin/pkg/etcd/sharded_distributed_store.go:401-437 | Taking the next event in keeps a replica on track. |
| EventLog.LoadCatchesUp | plugin/pkg/etcd/sharded_distributed_store.go:320-344 | Reading all of etcd in mid-stream keeps a replica on track. |
| ShardedReplication.StepConverges | plugin/pkg/etcd/sharded_distributed_store.go:209-443 | Every step of any node keeps every node on track. |
| ShardedReplication.RunConverges | plugin/pkg/etcd/sharded_distributed_store.go:209-443 | In every run, for every node and every other shard, the events still to come turn memory into etcd's content. |
| ShardedReplication.DrainedNodesAgree | plugin/pkg/etcd/sharded_distributed_store.go:379-443 | In every run nodes that have handled all events hold etcd's content and agree with each other. |
| ShardedReplication.DrainedNodesFollowOwner | plugin/pkg/etcd/sharded_distributed_store.go:128-443 | In every run, once an owner's shard is stored, every other drained node holds exactly that shard. |
| ShardedStore.Merge | plugin/pkg/etcd/sharded_distributed_store.go:307-315 | Merging the shards in any order gives each item its value and its shard key from its own shard. |
| ShardedStore.ShardDiff | plugin/pkg/etcd/sharded_distributed_store.go:267-305 | What differs in one shard, tagged with the shard, is all that differs. |
| ShardedStore.ShardedStore.GetItem | plugin/pkg/etcd/sharded_distributed_store.go:119-126 | Looking up by id alone finds the item of its shard; the shard key is its shard's, or empty if only the watch has brought it; whether the item is the node's own can be told from it, unless the own shard's key is empty. |
| ShardedStore.HeardWithoutKey | plugin/pkg/etcd/sharded_distributed_store.go:414-423 | A node hears of another node's item and looks it up: it is found, with an empty shard key. |
| ShardedStore.ShardedStore.SyncToInternalState | plugin/pkg/etcd/sharded_distributed_store.go:267-318 | Replaces one shard, rebuilds the flat view with every item's shard key, and lists exactly the differences. |
| ShardedStore.ShardedStore.AddOrUpdateItem | plugin/pkg/etcd/sharded_distributed_store.go:128-169 | Changes the item in memory and in etcd's own shard and nothing else there, tells the handlers what changed; for any id, the state stays right (the node on track, its listener a mirror) exactly if the id belongs to the own shard. |
| ShardedStore.AfterSet | plugin/pkg/etcd/sharded_distributed_store.go:128-169 | Setting an id in the own shard leaves every item and shard key in its home if and only if the id belongs to the own shard. |
| ShardedStore.AddOfOtherShard | plugin/pkg/etcd/sharded_distributed_store.go:128-169 | A node sets an item of another shard: both shards hold it. |
| ShardedStore.ShardedStore.DeleteItem | plugin/pkg/etcd/sharded_distributed_store.go:171-203 | The same for a deletion with any id: memory's and etcd's own shard lose the item and the flat view does; the state stays right exactly if the id belongs to the own shard or is unknown. |
| ShardedStore.UnionAfterDelete | plugin/pkg/etcd/sharded_distributed_store.go:171-203 | Deleting an id from the own shard and from the flat view leaves the view the union of the shards if and only if the id belongs to the own shard or no shard has it. |
| ShardedStore.DeleteOfOtherShard | plugin/pkg/etcd/sharded_distributed_store.go:171-203 | A node deletes an item of another shard: the flat view loses it, its shard keeps it. |
| ShardedStore.ShardedStore.Init | plugin/pkg/etcd/sharded_distributed_store.go:77-89 | Starts the node on track, with nothing told. |
| ShardedStore.ShardedStore.SyncBothWays | plugin/pkg/etcd/sharded_distributed_store.go:209-248 | Memory becomes the loaded shards; etcd's own shard becomes the items exactly if etcd had it; the three lists are the exact difference. |
| ShardedStore.ShardedStore.SyncAndTell | plugin/pkg/etcd/sharded_distributed_store.go:209-265 | A full sync in mid-stream keeps the node on track and its listener a mirror. |
| ShardedStore.ShardedStore.Sync | plugin/pkg/etcd/sharded_distributed_store.go:205-207 | Afterwards the node's own shard is stored if and only if etcd had a key of it before, or there are no items. |
| ShardedStore.SyncOverEmptyEtcd | plugin/pkg/etcd/sharded_distributed_store.go:205-242 | A node that syncs one item over an empty etcd has the item in memory, and its shard is not stored. |
| ShardedStore.ShardedStore.HandleEvent | plugin/pkg/etcd/sharded_distributed_store.go:379-443 | Takes the next event over, ignoring the own shard; the flat view, the tracking and the listener stay right; no shard key is set. |
| ShardedStore.ShardedStore.HandleWatchEvents | plugin/pkg/etcd/sharded_distributed_store.go:379-443 | After all events the other shards are etcd's. |
| Listening.Compare | plugin/pkg/etcd/store.go:61-93 | The three lists are exactly the differences, each key once. |
| Listening.DiffIsHeard | plugin/pkg/etcd/store.go:61-93 | A mirror that hears the differences of a change is a mirror of the new content, and no call fails to fit: what a call says was there before is what the mirror held. |
| Listening.DiffsJoin | plugin/pkg/etcd/sharded_distributed_store.go:223-227 | Differences of changes to different keys can be collected list by list. |
| Stores.StoreBase.SyncToInternalState | plugin/pkg/etcd/store.go:61-93 | Replaces the items and lists exactly the differences. |
| Stores.StoreBase.InvokeAddOrChangedHandler | plugin/pkg/etcd/store.go:138-156 | Tells the handlers exactly what is due for one item; the listener stays a mirror. |
| Stores.TrackLoad | plugin/pkg/etcd/readonly_store.go:53-71 | Reading all of etcd in mid-stream keeps the store on track. |
| Stores.TrackDeliver | plugin/pkg/etcd/readonly_store.go:90-119 | Handling the next event keeps the store on track. |
| Stores.ReadOnlyStore.constructor | plugin/pkg/etcd/readonly_store.go:35-46 | Starts equal to etcd with the watch at the same point. |
| Stores.ReadOnlyStore.Sync | plugin/pkg/etcd/readonly_store.go:53-83 | The items become etcd's, the exact differences are told, the watch stays right. |
| Stores.ReadOnlyStore.HandleEvents | plugin/pkg/etcd/readonly_store.go:85-123 | After every event the store is on track and its listener a mirror; after all events the items equal etcd's. |
| Stores.WriteOnlyStore.StoreItem | plugin/pkg/etcd/writeonly_store.go:173-180 | Stores the item, writing only if etcd does not hold it already. |
| Stores.WriteOnlyStore.AddOrUpdateItem | plugin/pkg/etcd/writeonly_store.go:34-75 | Items and etcd change alike, and the handlers hear exactly that. |
| Stores.WriteOnlyStore.DeleteItem | plugin/pkg/etcd/writeonly_store.go:77-106 | The same for a deletion. |
| Stores.WriteOnlyStore.Sync | plugin/pkg/etcd/writeonly_store.go:109-158 | Items and etcd both become exactly the given items, and the handlers hear the differences. |
| Stores.WriteOnlyStore.Init | plugin/pkg/etcd/writeonly_store.go:108-158 | The same without telling anyone. |
| Stores.WriteOnlyStore.InitFromEtcd | plugin/pkg/etcd/writeonly_store.go:160-171 | The items become etcd's, which is left as it was. |
| Equality.CompareMaps | plugin/pkg/common/common.go:42-104 | True exactly for maps both nil, or with the same keys and equal values, although only one is gone through. |
| Equality.CompareStringSlices | plugin/pkg/common/common.go:106-116 | True exactly for equal lists. |
| Equality.SameMapsEquivalence | plugin/pkg/common/common.go:42-104 | The comparison is an equivalence if that of the values is. |
| Equality.IPEqualEquivalence | plugin/pkg/common/common.go:53-58 | Comparing addresses, IPv4 and IPv6 forms mixed, is an equivalence. |
| IpMath.NextIP | plugin/pkg/ipam/util.go:59-68 | The loop computes the successor. |
| IpMath.SuccessorValue | plugin/pkg/ipam/util.go:59-68 | For addresses of any width the carry adds one and wraps to zero at the end. |
| IpMath.GetBroadcastIP | plugin/pkg/ipam/util.go:26-32 | Sets every bit outside the mask. |
| IpMath.BitsAreBlocks | plugin/pkg/ipam/util.go:29 | The bit operations on a byte round down to a block and up to its last number. |
| IpMath.MaskValue | plugin/pkg/ipam/util.go:26-40 | Masking gives the base of the block and its complement the last address, for any width. |
| IpMath.ContainsIsRange | plugin/pkg/ipam/util.go:41 | Comparing masked bytes decides membership in the block. |
| IpMath.IpsInSubnet | plugin/pkg/ipam/util.go:34-57 | The enumeration ends, also at 255.255.255.255, and returns the host addresses in order. |
| IpMath.ZeroPrefixNeverEnds | plugin/pkg/ipam/util.go:40-41 | For a prefix of no bits the count never leaves the subnet, so the enumeration never ends. |
| IpMath.HostsOfPrefix | plugin/pkg/ipam/util.go:34-57 | These are exactly the addresses other than network, gateway and broadcast, ascending: 2^(32-n)-3 of them up to /30, none for /31 and /32. |
| IpMath.WordIsSum | plugin/pkg/ipam/util.go:75 | The shifts and disjunctions of four bytes are their weighted sum. |
| IpMath.IpToIntIsOrderPreserving | plugin/pkg/ipam/util.go:70-76 | The number of an address keeps the byte order and tells addresses apart. |
| NextFit.SortSorts | plugin/pkg/ipam/util.go:96-126 | Sorting gives a sorted permutation. |
| NextFit.SortedIsUnique | plugin/pkg/ipam/util.go:96-126 | There is only one, whatever algorithm finds it. |
| NextFit.GetLastReservedIP | plugin/pkg/ipam/util.go:78-94 | Finds a latest allocation, in whatever order the map is gone through. |
| NextFit.GetNextAvailableIP | plugin/pkg/ipam/util.go:128-172 | Returns an available address such that no other lies between the latest allocation and it on the way round. |
| NextFit.NextIsUnique | plugin/pkg/ipam/util.go:128-172 | That address is unique. |
| Keys.ParsePrintedIP | plugin/pkg/ipam/pool_etcd.go:23-25 | The text of an IPv4 address parses back to it. |
| Keys.ParseIPIsReader | plugin/pkg/ipam/pool.go:115 | Whatever the library makes of IPv6 texts, it reads a dotted text as its address. |
| Keys.ReadAsPrinted | plugin/pkg/ipam/pool.go:115 | Of all the texts that read as an IPv4 address exactly the dotted one is the text it prints as. |
| Keys.SubnetKeyRoundTrip | plugin/pkg/ipam/address_space_etcd.go:16-42 | A subnet's key parses back to the subnet, under any prefix. |
| Keys.DeeperIsNoSubnet | plugin/pkg/ipam/address_space.go:177-178 | A key further down names no subnet. |
| Keys.SubnetKeysDiffer | plugin/pkg/ipam/address_space_etcd.go:16-18 | Different subnets have different keys. |
| Keys.SubnetToKeyReversible | plugin/pkg/common/common.go:28-30 | On any string the replacement can be undone if and only if the string has no dash. |
| Keys.PoolIDRoundTrip | plugin/pkg/driver/ipam.go:13-39 | The network id, dashes included, comes back out of a pool id. |
| Keys.ItemKeyRoundTrip | plugin/pkg/etcd/sharded_distributed_store.go:355-367 | The key of an item parses back to its shard and id. |
| Keys.ItemKeyExactly | plugin/pkg/etcd/sharded_distributed_store.go:355-367 | The keys that name an item are exactly those with two parts below the prefix. |
| Keys.RecordKeyRoundTrip | plugin/pkg/ipam/pool_etcd.go:19-37 | Each of the four keys of an address parses back to itself. |
| Keys.ParsedKeyIsRendered | plugin/pkg/ipam/pool_etcd.go:254-300 | Every key read as one of an address is rendered as it was. |
| ResolverIndex.RunKeepsIndex | plugin/pkg/dns/resolver.go:133-212 | After any sequence of additions, updates and removals in which no container is added again without a name it is known under nor removed with info that lacks one, the index is the relation read off the known containers, without empty buckets; its addresses are current if no call changed one. |
| ResolverIndex.AddKeepsIndex | plugin/pkg/dns/resolver.go:133-147 | Adding a container keeps that if and only if the container was not known, or under no name it has lost. |
| ResolverIndex.AddedAgainKeepsOldName | plugin/pkg/dns/resolver.go:133-147 | A container known as "a" and added again as "b" stays listed as "a". |
| ResolverIndex.AddKeepsCurrent | plugin/pkg/dns/resolver.go:133-147 | Addresses stay current too. |
| ResolverIndex.DropKeepsIndex | plugin/pkg/dns/resolver.go:149-161 | Removing one keeps it if and only if the info given has every name the container is known under. |
| ResolverIndex.RemovedWithOtherInfoStays | plugin/pkg/dns/resolver.go:149-161 | A container known as "a" and removed with info that only has "b" stays listed. |
| ResolverIndex.UpdateKeepsIndex | plugin/pkg/dns/resolver.go:163-212 | Updating one, known or not, always keeps it. |
| ResolverIndex.UpdateKeepsCurrent | plugin/pkg/dns/resolver.go:163-212 | Entries carry current addresses if a container's address on a network stays fixed. |
| ResolverIndex.RemoveLists | plugin/pkg/dns/resolver.go:352-364 | Filtering a bucket removes exactly what it should and leaves no empty bucket. |
| Resolver.Resolver.AddContainer | plugin/pkg/dns/resolver.go:133-147 | Adds exactly the container's entries, each with its address on the entry's network; the index stays the relation exactly if the container was not known, or under no name it has lost. |
| Resolver.Resolver.RemoveContainer | plugin/pkg/dns/resolver.go:149-161 | Removes exactly its entries under the names given; the index stays the relation exactly if these are all it has. |
| Resolver.Resolver.UpdateContainer | plugin/pkg/dns/resolver.go:163-212 | Its entries become those of its current names, new ones with its address on their network, others stay; no empty bucket remains. |
| Resolver.Resolver.ResolveOne | plugin/pkg/dns/resolver.go:279-330 | Exactly the service and container matches of one reading on one network. |
| Resolver.Resolver.ResolveContainerName | plugin/pkg/dns/resolver.go:301-313 | Exactly the container matches. |
| Resolver.Resolver.ResolveServiceName | plugin/pkg/dns/resolver.go:315-330 | Exactly the service matches, by endpoint mode. |
| Resolver.Resolver.ResolveName | plugin/pkg/dns/resolver.go:214-265 | Without repeats, exactly the matches over all networks of the first cut that has any; in compatibility mode exactly those of the first network that has any there. |
| NameLookup.CutsAreReadings | plugin/pkg/dns/resolver.go:218-232 | For a query without empty labels the cuts tried are exactly its readings as a name with an optional network. |
| NameLookup.LongestNameFirst | plugin/pkg/dns/resolver.go:230-240 | Cuts are tried with strictly shorter names. |
| NameLookup.LongestReadingAnswers | plugin/pkg/dns/resolver.go:214-265 | A query without empty labels is answered, outside compatibility mode, with exactly the matches on all networks of its reading with the longest name that has any. |
| NameLookup.NoReadingNoAnswer | plugin/pkg/dns/resolver.go:214-265 | ... and with nothing if no reading has a match. |
| NameLookup.FinalDotIsDropped | plugin/pkg/dns/resolver.go:218 | A final dot is dropped, and nothing else. |
| NameLookup.LookupIsScan | plugin/pkg/dns/resolver.go:301-313 | Looking containers up in the index is scanning the known containers for the name, and gives their addresses on the network. |
| NameLookup.AnswerIgnoresOrder | plugin/pkg/dns/resolver.go:221-225 | Outside compatibility mode the order of networks does not matter. |
| Fwmarks.GenerateFWMARK | plugin/pkg/service_lb/fwmarks.go:162-195 | The first of at most a thousand candidates not in use, of which the first hashes service and network; an error exactly if all are in use. |
| Fwmarks.FwmarksManagement.GetMark | plugin/pkg/service_lb/fwmarks.go:51-124 | A service's existing mark is returned unchanged; otherwise it gets one no service of the network has, which both maps then hold for it; all other pairs stay; the loop ends after one turn. |
| Fwmarks.FwmarksManagement.Release | plugin/pkg/service_lb/fwmarks.go:126-156 | Removes the pair exactly if both maps have it, and leaves all others; the caller does not learn which. |
| Fwmarks.FwmarksManagement.CleanUpStaleFwmarks | plugin/pkg/service_lb/fwmarks.go:207-253 | Leaves exactly the pairs of listed services; the list returned has exactly the marks of the last entry read of each other service. |
| Fwmarks.MarksAreDistinct | plugin/pkg/service_lb/fwmarks.go:76-122 | Two services of one network never share a mark. |
| Fwmarks.AssignHolds | plugin/pkg/service_lb/fwmarks.go:97-111 | A new mark is the service's only one on the network; all other pairs stay. |
| Fwmarks.FreeDrops | plugin/pkg/service_lb/fwmarks.go:129-143 | A released mark is nobody's, its service has none on the network, and all other pairs stay. |
| Fwmarks.KeptKeepsInverse | plugin/pkg/service_lb/fwmarks.go:217-249 | Cleaning up keeps the two maps inverse and removes exactly the pairs of unlisted services. |
| Fwmarks.AlwaysReturned | plugin/pkg/service_lb/fwmarks.go:209-251 | A removed mark is in the list returned, whatever order the entries are read in, if and only if some unlisted service had this mark and no other. |
| Fwmarks.TwoMarksOneReturned | plugin/pkg/service_lb/fwmarks.go:209-251 | A service with mark 1 on one network and 2 on another, cleaned up in key order: both marks go, and 2 is not in the list returned. |
| Fwmarks.RunKeepsInverse | plugin/pkg/service_lb/fwmarks.go:51-253 | In every run the two maps are exact inverses on each network. |
| Fwmarks.HoldsWhatWasAssigned | plugin/pkg/service_lb/fwmarks.go:51-253 | In every run a service holds exactly the marks that were assigned to it and neither released nor cleaned up since. |
| Fwmarks.MarkStays | plugin/pkg/service_lb/fwmarks.go:51-253 | In every run a service keeps its mark until it is released or cleaned up. |
| ConcurrentMaps.StepSettles | plugin/pkg/common/concurrent_map.go:62-83 | Every step of any interleaving keeps: one value made at most, one adder, everyone who succeeded has the value held. |
| ConcurrentMaps.OneAddition | plugin/pkg/common/concurrent_map.go:62-83 | In every interleaving without removal at most one factory call succeeds, exactly one successful caller reports an addition if the key was absent, and all successful callers return the same value. |
| ConcurrentMaps.OwnFactoryDecides | plugin/pkg/common/concurrent_map.go:62-83 | In every interleaving a caller fails exactly if its own factory ran and failed, and reports an addition exactly if its own factory made the value it returns. |

## Left out

- Netlink, iptables, IPVS, namespaces, processes, files, the Docker API, HTTP handlers, logging and JSON: stored values are abstract, and encoding and decoding are inverse.
- Which texts the library accepts as IPv6 addresses and what it reads them as: an arbitrary function, so that what is proved holds for every such reading. Zones are not modelled.
- Errors of etcd inside the stores, the marks and the start of a pool: these are error-free calls. The address space and the pool do have lost requests and answers.
- Pool.EtcdPool.AllocateFreeIP: turns as often as a list says, because a method must end; `NeverEnds` and `NextFitNeverEnds` hold for lists of every length.
- The pool's watcher: its connection is closed as soon as it is created, so it never sees an event; one host is the only writer.
- The connection between a snapshot and the start of a watch: both are one step, so events between them are not modelled.
- Agreement of one pool id across nodes after committed releases: a release appends at the tail of one node's list only, so the list order holds for runs in which no release commits. `UnreleasedPoolsAreSafe` covers runs with committed ones.
- ShardedStore.ShardedStore.Sync: like Init, requires ids of the node's own shard, because the source demands unique ids (plugin/pkg/etcd/sharded_distributed_store.go:36-37).
- Items that live in two shards at once, values that cannot be parsed, and keys of another depth below a store's prefix.
- Handler calls that race after the lock is released: an operation and its handler calls are one step.
- The order in which the resolver's sort leaves the networks: the comparison looks at the unsorted list, so any order is allowed. `RemoveNetwork`, which deletes by swapped keys, and `ResolveIP`, which is empty, are not modelled.
- The final shuffle of DNS answers: contracts say which addresses are in an answer, not where.
- The CRC-32 value, randomness and its failure.
- go-cidr's Subnet is not part of this model beyond the prefix or error it returns.
- `sort.Slice` is the function SortIPs, not a loop; `SortedIsUnique` shows that the choice of algorithm does not matter.
- IpsInSubnet: requires a prefix of at least one bit; for /0 the loop of the source does not end (`ZeroPrefixNeverEnds`).
- common/service.go, the dual-key map, events and the init manager: they would only add easy members.
