# grpclb in Dafny

A model of grpclb, a client-side load-balancing and service-discovery layer for gRPC clients. It has two halves.

**Pickers.** Given the ready snapshot of healthy endpoints (address → SubConn), a picker chooses the connection for each outgoing call. There are three of them:

- **ketama**: a consistent-hash ring of ten CRC-32 replica points per address. It does a binary search for the routing hint's checksum.
- **robin**: a weighted table of cumulative weight bounds, read from the instance's `weight` metadata. A random point in that table selects a bucket.
- **random**: a uniform draw over the snapshot.

**Resolvers.** A resolver keeps the endpoint set fresh by long-polling the discovery backend (Consul's health query):

- **legacy naming watcher**: `Next` blocks until the healthy set changes. It then returns the full difference, deletions first.
- **gRPC resolver for `consul://addr/service` targets**: each round reports the instances not seen before and keeps the latest non-empty key-to-node map.

## How the model is built

- **Snapshots.** The Go map of the ready snapshot is a `seq<ReadySubConn>` in Go's (arbitrary) iteration order. Where the source iterates a Go map to build a result, the model picks elements of a `set` with `:|`, so every iteration order is covered.
- **External functions become parameters.** CRC-32 (`crc32.ChecksumIEEE`) is a parameter `crc` with results in `[0, 2^32)`. Likewise `strconv.Atoi` is `atoi`, and `rand.Intn` is the `draw` passed to `Pick`.
- **String helpers are defined in `Text`.** `strconv.Itoa`, `net.JoinHostPort`, `strings.Split` and `strings.Join` are written out there.
- **State changes are imperative.**
  - The robin picker is a class. Its `Pick` moves the cursor fields.
  - Both resolvers are classes whose methods update the known address set and the blocking index.
  - Each discovery query these methods would issue is passed in as a `QueryResult` value.
- **Pure computations are values.** The ketama and random pickers are immutable snapshots, so they are datatypes.
- **Shared types.**
  - The query result shapes and the `host:port` key are in `ConsulApi`.
  - The pick results and addresses are in `Balancer`.
- **Constants.** The ketama constants `_grpclb-ketama-key` and 10 replicas are `Ketama.DefaultKetamaKey` and `Ketama.DefaultReplicas`. The resolver scheme is `ConsulResolver.Scheme`.
- **Construction.** The legacy `NewResolver` just stores its two arguments. It is the `NamingConsul.Resolver` datatype constructor.

**Where the specification and the code differ, the model follows the code:**

- **ketama Pick.**
  - The specification says that a hint beyond the largest ring hash clamps to the last ring entry, and that no hint selects the last entry.
  - The code (balancer/ketama/ketama.go:68-80) instead looks up the search position, or `len(subConns)-1`, as a hash key.
  - This is the finding below. The corrected lookup implements the specification's clamp.
- **robin Pick.**
  - The specification says the rotation cursor persists between calls.
  - The code resets `curPos` and `curIndex` at the start of every call (balancer/robin/robin.go:84-85).
  - So the selected bucket depends on the draw alone, and the fields only record the last walk.
- **Weights.**
  - The specification says cumulative bounds are strictly increasing.
  - The code accepts any integer `strconv.Atoi` returns, including 0 and negative weights (robin.go:48-49).
  - The model keeps this. The properties that need increasing bounds require positive weights.
- **Ring order.**
  - The specification says the ring is strictly sorted.
  - The code sorts the hashes with duplicates kept (`sort.Ints`). Equal replica hashes appear several times, and the last writer owns the key.
  - The model's `Sorted` is non-strict.

## Model

| member | source | states |
|---|---|---|
| Text.SplitPieces | resolver/consul/resolver.go:20 | `strings.Split` on one character: there is always at least one piece, there is exactly one piece iff the separator is absent, and no piece contains the separator |
| Text.SplitJoin | resolver/consul/resolver.go:20 | splitting loses nothing: joining the pieces with the separator gives back the original string |
| ConsulApi.NodeMapKeys | resolver/consul/resolver.go:95-98 | the keys of the key-to-node map are exactly the `host:port` keys of the instances in the result |
| ConsulApi.NodeMapLastWins | resolver/consul/resolver.go:96-97 | instances sharing a `host:port` collapse to one key, and the map keeps the node of the last one |
| Ketama.ReplicaHashes | balancer/ketama/ketama.go:40-41 | every address gets exactly ten replica points, `crc(Itoa(i) + addr)` |
| Ketama.RingHashes | balancer/ketama/ketama.go:39-46 | the ring holds ten points per ready address |
| Ketama.RingOwnersKeys | balancer/ketama/ketama.go:39-46 | the owner map has an entry for every ring point and nothing else |
| Ketama.RingHashOrigin | balancer/ketama/ketama.go:39-43 | a value is a ring point iff it is `crc(Itoa(i) + addr)` for some ready address and some replica i < 10 (both directions) |
| Ketama.RingOwnerIsLastWriter | balancer/ketama/ketama.go:44 | a replica point of an address that no later address shares is owned by that address's SubConn (last writer wins) |
| Ketama.RingOwnersFromReady | balancer/ketama/ketama.go:44 | every owner in the ring map is the SubConn of some ready address |
| Ketama.SortInts | balancer/ketama/ketama.go:47 | the sorted ring is in ascending order and is a permutation of the unsorted hashes |
| Ketama.Build | balancer/ketama/ketama.go:35-53 | the built picker is valid (sorted ring, owner map keyed by exactly the ring points); it has 10·n points, a permutation of the ring hashes, and owners as inserted in snapshot order |
| Ketama.CountBelowSplits | balancer/ketama/ketama.go:72-74 | on a sorted ring, the search position splits it: everything before is below the target, everything from it on is at least the target |
| Ketama.CountBelowAt | balancer/ketama/ketama.go:72-74 | conversely, any position that splits the ring this way is the search position |
| Ketama.SearchFirstAtLeast | balancer/ketama/ketama.go:72-74 | `sort.Search`'s binary search returns a boundary position within the ring, and on a sorted ring the first index whose hash is at least the target |
| Ketama.Pick | balancer/ketama/ketama.go:63-82 | Pick is the as-written selection: ErrNoSubConnAvailable exactly when the picker is empty, otherwise the map entry under the search position or `len-1` without a hint (nil when there is none) |
| Ketama.SelectionMissesRing | balancer/ketama/ketama.go:68-80 | on a valid non-empty picker whose ring points all exceed the ring length, Pick returns a nil SubConn with a nil error, with or without a hint |
| Ketama.SelectionMissesRingExample | balancer/ketama/ketama.go:80 | a concrete picker (one address, all ten points at 100) for which Pick without a hint returns nil |
| Ketama.CorrectedSelectionOwnsTarget | balancer/ketama/ketama.go:68-80 | the corrected lookup returns the owner of the first ring point at least the hint's checksum; it clamps to the last point on a search miss and takes the last point without a hint |
| Ketama.CorrectedSelectionIsReady | balancer/ketama/ketama.go:35-80 | for a picker Build made from a non-empty snapshot, the corrected lookup always returns one of the ready SubConns |
| Robin.Weights | balancer/robin/robin.go:46-51 | one weight per ready address: the parsed `weight` metadata of a service address when it parses, otherwise 1 |
| Robin.PrefixSumsAt | balancer/robin/robin.go:53-55 | upper edge k is the running total of the first k+1 weights |
| Robin.PrefixSumsStep | balancer/robin/robin.go:53-55 | each bucket spans exactly its weight: upper edge = lower edge + weight |
| Robin.PrefixSumsLast | balancer/robin/robin.go:53-60 | the last upper edge equals the total weight |
| Robin.PrefixSumsIncrease | balancer/robin/robin.go:53-55 | with positive weights, the upper edges strictly increase |
| Robin.BucketIsFirstStop | balancer/robin/robin.go:86-100 | when the last upper edge is the total, the walk stops inside the table, at the first bucket whose edge reaches the point |
| Robin.BucketHoldsPoint | balancer/robin/robin.go:86-100 | every point 1..sum falls in the selected bucket's span (lower edge, upper edge] |
| Robin.SpansDisjoint | balancer/robin/robin.go:86-100 | with positive weights, no point lies in two buckets' spans |
| Robin.PointsSelectingUpTo | balancer/robin/robin.go:86-100 | counting the points 1..n that select bucket i gives the overlap of 1..n with that bucket's span |
| Robin.WeightedFairness | balancer/robin/robin.go:86-101 | with positive weights, exactly `weight[i]` of the `sumWeight` equally likely draws select bucket i |
| Robin.Picker.Build | balancer/robin/robin.go:34-64 | the table holds the snapshot's SubConns and their running weight totals; `sumWeight` is the total, `step` is total / n truncated (both 0 when empty), and the cursor is at 0 |
| Robin.Picker.Pick | balancer/robin/robin.go:78-101 | ErrNoSubConnAvailable with no change on an empty picker; otherwise the cursor restarts at 0 and stops in the bucket holding `draw + 1`, with curPos at that bucket's lower edge, and that bucket's SubConn is returned |
| RandomBalancer.Build | balancer/random/random.go:30-39 | the picker holds one SubConn per ready address, in snapshot order |
| RandomBalancer.Pick | balancer/random/random.go:48-55 | ErrNoSubConnAvailable exactly when the picker is empty, otherwise a SubConn of the picker |
| RandomBalancer.PickChances | balancer/random/random.go:53 | the number of draws that pick a SubConn equals its multiplicity in the picker (uniform selection) |
| NamingConsul.ApplyDistinct | resolver_consul.go:60-71 | applying updates that mention each address once removes the deleted and adds the added addresses |
| NamingConsul.ApplyDiff | resolver_consul.go:60-76 | round trip: applying the returned difference to the old address set yields the new one |
| NamingConsul.DiffEmptyIffSame | resolver_consul.go:73-76 | the difference is empty iff the new address set equals the old one |
| NamingConsul.DiffUpdates | resolver_consul.go:60-71 | the updates delete exactly the vanished addresses and add exactly the new ones; all Deletes come before the Adds, and no address appears twice |
| NamingConsul.CollectAddresses | resolver_consul.go:55-58 | the observed set is exactly the `host:port` keys of the result |
| NamingConsul.Watcher.constructor | resolver_consul.go:38-42 | a watcher for the service with no known addresses and blocking index 0 |
| NamingConsul.Watcher.Resolve | resolver_consul.go:30-43 | a client error is returned with no watcher; otherwise a fresh watcher for the resolver's service |
| NamingConsul.Watcher.Next | resolver_consul.go:45-78 | an error returns with the address set untouched; unchanged results keep polling while storing each index; the first changed result replaces the set and its non-empty difference is returned, and applied to the old set it gives the new one |
| ConsulResolver.ParseTarget | resolver/consul/resolver.go:19-24 | without a '/', the whole endpoint is the agent address and the service is empty; with one, neither field contains a '/' |
| ConsulResolver.ParseTargetFields | resolver/consul/resolver.go:19-24 | with a '/', the agent address is everything before the first '/' |
| ConsulResolver.ParseTargetPrefix | resolver/consul/resolver.go:19-24 | `addr/service` is a prefix of the endpoint that ends at its end or at a '/' |
| ConsulResolver.CollectNodes | resolver/consul/resolver.go:95-98 | the loop builds the key-to-node map of the result, later instances overwriting earlier ones |
| ConsulResolver.NewAddresses | resolver/consul/resolver.go:100-105 | one address per key of the new map that was not known, carrying its node, none twice |
| ConsulResolver.AdditionsComplete | resolver/consul/resolver.go:100-108 | the report has exactly as many addresses as new keys, and is empty iff no key is new |
| ConsulResolver.Resolver.constructor | resolver/consul/resolver.go:34-40 | a resolver for the agent address and service with an empty known map, index 0, not done |
| ConsulResolver.Resolver.Build | resolver/consul/resolver.go:17-43 | the endpoint is parsed into agent address and service; a client error is returned with no resolver, otherwise a fresh started resolver |
| ConsulResolver.Resolver.ResolveOnce | resolver/consul/resolver.go:86-113 | an error changes nothing; otherwise the index is stored, new keys are reported iff there are any, and the known map is replaced unless the result is empty (vanished instances are never reported) |
| ConsulResolver.Resolver.ResolveNow | resolver/consul/resolver.go:62-64 | one resolution round, with the same outcome as ResolveOnce |
| ConsulResolver.Resolver.Close | resolver/consul/resolver.go:66-69 | marks the resolver done |

## Left out

- **External calls.** The discovery client is not modelled: `consul_api.NewClient`, `Health().Service` and its blocking wait. Each query's outcome is a parameter (`QueryResult`), and a client-construction failure is the parameter `newClientErr`.
- **Goroutines and synchronisation.**
  - Not modelled: `start`, `watchAddrUpdates`, the `WaitGroup` and the concurrent use of the `done` flag in resolver/consul/resolver.go:71-84.
  - `Close` is modelled as setting `done`, and each loop iteration as one `ResolveOnce` call.
  - The data race on the robin cursor is not modelled, because the model is sequential.
- **Logging and registration.** Not modelled: logging (`grpclog.Infof`, `fmt.Printf`), `init` registration, the builder constructors, `Scheme()`, `Close` of the legacy watcher (empty) and the gRPC `ClientConn` plumbing. `cc.NewAddress` is modelled as the returned report.
- **Files outside the core.** resolver/consul/register.go and the example programs are not part of this model.
- **ketama routing context.** The incoming-metadata lookup (`metadata.FromIncomingContext`) is modelled as the sequence of values under `_grpclb-ketama-key`, of which only the first is used. The specification's explicit-hash variant (a hash carried in metadata) does not appear in balancer/ketama/ketama.go and is not modelled.
- **Integer width.** Go `int` is taken as unbounded. The model does not capture overflow of weight totals or of CRC values on 32-bit platforms.
- **Sorting.** `sort.Ints` is modelled by a functional insertion sort. Only its result is specified: ascending and a permutation.
- **Map order.** Go's map iteration order is modelled as the snapshot sequence's order or as an arbitrary choice. The model does not fix any particular order.
- Robin.Picker.Pick: requires `0 <= draw < sumWeight` on a non-empty picker. When the weights total 0 or less, `rand.Intn` panics, and the model does not capture that panic.
- Ketama.Pick: requires the picker to be one Build produced (`Valid`: a sorted ring whose points are exactly the map's keys). Pickers built any other way are not modelled.

## Findings

| source | as written | input that shows it | evidently intended | confidence | as-written member | corrected member |
|---|---|---|---|---|---|---|
| balancer/ketama/ketama.go:80 | `p.subConns[pos]` looks up the ring INDEX `pos` (a search position, or `len(subConns)-1` without a hint) as a hash KEY of the owner map | one address whose ten replica checksums are all 100, with no hint: `pos = 0`, key 0 is absent, and Pick returns a nil SubConn with a nil error. With real CRC-32 values any ring whose points exceed its length behaves the same | `p.subConns[p.connHashs[idx]]`: the owner of the ring point found, clamped to the last entry on a miss, and the last entry without a hint | high (by proof; not executed) | Ketama.SelectionMissesRing | Ketama.CorrectedSelectionOwnsTarget |
