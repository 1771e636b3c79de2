# grpc-lb address selection, in Dafny

This project models the client-side load balancer `grpclb`. It has three parts.

- **The weighted address book `BaseSelector`.** Every selector embeds it. It keeps `addrs`, a list in which each endpoint appears `Weight` times in one unbroken run, and `addrMap`, which holds each endpoint's record: the address it was added with, its weight, a connected flag and a load counter.
- **The three selection strategies built on the book.**
  - Random: a circular scan from a random start.
  - Round robin: a circular scan from a cursor that persists across calls, with a fallback when nothing is connected.
  - Ketama: consistent hashing over one virtual node per copy of an endpoint.
- **The etcd discovery watcher (`registry/etcd3/watcher.go`).** It turns watch records into naming updates and suppresses a repeated put of a key within a 300-second heartbeat window. It also decodes the entries of a range read.

Layout:

| File | Module | What it holds |
|---|---|---|
| `wrappers.dfy` | `Wrappers` | `Option` |
| `strconv.dfy` | `Strconv` | `strconv.Atoi` and `%d` formatting on a 64-bit platform |
| `selector.dfy` | `Selector` | the address book, the package's error values, the central invariant, and the circular scan shared by two strategies |
| `random_selector.dfy` | `Random` | random strategy |
| `roundrobin_selector.dfy` | `RoundRobin` | round-robin strategy |
| `ketama_selector.dfy` | `Ketama` | ketama strategy |
| `watcher.dfy` | `EtcdWatcher` | the watcher |

Modelling choices:

- **Embedding.** Go embedding is modelled as composition. Each strategy's class holds its book as `const book: BaseSelector`, and the inherited methods are the book's. `*AddrInfo` pointers in the map become values in a `map<string, AddrInfo>` field.
- **In-place updates.** The source's in-place changes (`a.Connected = true`, `addrInfo.Load++`) become updates of that one key (`SetConnected`, `AddLoad`).
- **The invariant.** `BaseSelector.Valid()` (`WeightedRuns` in `selector.dfy`) is the invariant the source relies on: every listed address is a key of the map, and each key's record carries its own address and a positive weight `w`. Each key also has exactly `w` copies in `addrs`, all in one contiguous run. Every method of every selector preserves it.
- **Errors.** They keep Go's identity semantics. `Sentinel(k)` is one of the package-level error variables. `Adhoc(text)` is a fresh `errors.New(text)`, which equals no sentinel even when the texts match.

Several behaviours of the code are modelled as written:

- `Up` on an unknown address still counts the connected records.
- Ketama `Get` reports every failure after the empty-list check as `NoAvailableAddress`, because the final `return` overrides the error it set for a missing key or an empty ring.
- The random strategy's empty-list error is a fresh error value rather than the `AddrListEmpty` sentinel.
- `upWrapAddr` keeps only the text before the first '-'. `Ketama.UpWrapAddrOfWrapAddr` proves that a virtual node maps back to its endpoint exactly when the endpoint contains no '-'. So a ketama `Get` for an endpoint such as `my-host:80` can never succeed.

## Model

| member | source | states |
|---|---|---|
| Strconv.Atoi | selector.go:52-53 | parses an optional sign followed by at least one decimal digit, failing on anything else or out of range; the result lies in the 64-bit int range |
| Strconv.Itoa | ketama_selector.go:35 | `%d` of a natural number is a non-empty string of digits with no leading zero |
| Strconv.DigitsValueItoa | ketama_selector.go:35 | reading the digits `%d` writes gives the number back |
| Strconv.ItoaInjective | ketama_selector.go:35 | distinct numbers are written as distinct strings |
| Strconv.AtoiItoa | selector.go:52-55 | `strconv.Atoi` returns the number for every decimal rendering of a non-negative 64-bit int |
| Selector.Message | selector.go:21-24 | the error texts: "addr list is emtpy", "addr exist", "addr does not exist", "no available address" and, from ketama_selector.go:20, "ketama key is empty"; a fresh error's text is the one it was made with |
| Selector.SentinelMessagesDistinct | selector.go:21-24 | the five package error values have pairwise distinct texts |
| Selector.WeightOf | selector.go:46-57 | the weight is always at least 1; it differs from 1 only when it is the parsed "weight" metadata entry |
| Selector.WeightFromAtoi | selector.go:50-55 | any "weight" entry that `strconv.Atoi` reads as a positive number (for example "3", "+3" or "007") becomes the weight |
| Selector.WeightFromDecimal | selector.go:50-55 | corollary: a positive weight written in plain decimal becomes the weight as written |
| Selector.WeightDefault | selector.go:46-57 | with no metadata map, no "weight" entry, an unparsable one or one that is not positive, the weight is 1 |
| Selector.Repeat | selector.go:61-63 | the appended run has exactly `n` entries, all equal to the address |
| Selector.RepeatCount | selector.go:61-63 | the run holds `n` copies of the address and none of any other |
| Selector.InAddrsIffKey | selector.go:26-29 | under the invariant, an address is in `addrs` exactly when it is a key of `addrMap` |
| Selector.AddKeepsRuns | selector.go:59-63 | recording a new endpoint and appending its run keeps the invariant |
| Selector.RemoveFirstRunSplit | selector.go:69-85 | cutting out `addrs[firstIdx..lastIdx]`, as found by the index loop, is `RemoveFirstRun`: drop the first run of the address and keep the rest in order |
| Selector.FirstRunHoldsAll | selector.go:83-85 | when an address's copies are contiguous, its first run holds all of them |
| Selector.CutKeepsContiguous | selector.go:84-85 | cutting a slice out keeps every other address contiguous |
| Selector.CutKeepsCount | selector.go:84-85 | cutting out a run of one address keeps every other address's count |
| Selector.DeleteKeepsRuns | selector.go:83-86 | cutting out the first run and deleting the key keeps the invariant and leaves no copy behind |
| Selector.RemoveFirstRunRemovesAll | selector.go:83-86 | under the invariant, removing the first run removes every copy and nothing else |
| Selector.StateChangeKeepsRuns | selector.go:99 | changing connected flags or loads without touching addresses or weights keeps the invariant |
| Selector.ConnectedInStep | selector.go:101-108 | visiting one more key adds one to the connected count exactly when that key is connected |
| Selector.FirstConnected | random_selector.go:32-40 | the first offset from `start`, going round the list, whose entry is connected: every earlier offset is unconnected; None means no entry is connected |
| Selector.ScanFindsConnected | random_selector.go:32-39 | the scan visits every index, so it finds an entry whenever some entry is connected |
| Selector.BaseSelector.constructor | random_selector.go:20 | a selector starts with an empty list and an empty map, which satisfy the invariant |
| Selector.BaseSelector.Add | selector.go:38-65 | an address already listed gives `AddrExist` and changes nothing; otherwise `Weight` copies are appended after the old list, the record is stored as unconnected with load 0, and the invariant is kept |
| Selector.BaseSelector.Delete | selector.go:67-90 | an unlisted address gives `AddrDoesNotExist` and changes nothing; otherwise the list becomes `RemoveFirstRun` of the old list, holds no copy of the address, and the record is deleted |
| Selector.BaseSelector.Up | selector.go:92-110 | an already connected endpoint gives `(0, true)` and nothing changes; otherwise the flag is set if the address is known, and the result is `(min(number of connected records, 2), false)`, even for an unknown address |
| Selector.BaseSelector.CountConnected | selector.go:101-108 | the counting loop of `Up` returns the number of connected records, capped at 2 |
| Selector.BaseSelector.Down | selector.go:116-123 | a known endpoint's connected flag is cleared; nothing else changes and no error is returned |
| Selector.BaseSelector.AddrList | selector.go:125-131 | one entry per record, with no address repeated, each entry being the address its record holds, and every record represented |
| Selector.BaseSelector.Get | selector.go:133-135 | the zero address and no error |
| Selector.BaseSelector.Put | selector.go:137-143 | a known endpoint's load goes down by exactly one, possibly below zero; nothing else changes and no error is returned |
| Random.RandomSelector.constructor | random_selector.go:17-22 | an empty book satisfying the invariant |
| Random.RandomSelector.Get | random_selector.go:24-42 | an empty list gives a fresh error whose text is the `AddrListEmpty` one but which is not that sentinel, and nothing changes; otherwise the first connected entry from `rnd % size` is returned with its load raised by one and nothing else changed; with none connected, `NoAvailableAddress`, the zero address and no change |
| RoundRobin.Pick | roundrobin_selector.go:29-48 | the picked index and the new cursor both lie inside the list |
| RoundRobin.PickFirstConnected | roundrobin_selector.go:29-39 | with some entry connected, the pick is connected, no entry between the cursor and the pick is, and the cursor moves to the index after the pick |
| RoundRobin.PickFallback | roundrobin_selector.go:40-46 | with nothing connected, the pick is the unconnected entry just before the cursor, and the cursor stays where it is |
| RoundRobin.PickAllConnected | roundrobin_selector.go:30-39 | with every entry connected, the pick is the cursor's entry and the cursor advances by one, wrapping at the end |
| RoundRobin.RoundRobinSelector.constructor | roundrobin_selector.go:13-18 | cursor 0 and an empty book satisfying the invariant |
| RoundRobin.RoundRobinSelector.Get | roundrobin_selector.go:20-49 | an empty list gives `AddrListEmpty` with the cursor and map unchanged; otherwise a cursor past the end is reset to 0, the picked entry is returned without error, its load is raised by one, nothing else changes, and the cursor becomes the one `Pick` gives |
| RoundRobin.RoundRobinSelector.Scan | roundrobin_selector.go:30-48 | the scan loop stops at the entry `Pick` names and leaves the cursor `Pick` gives |
| Ketama.DefaultKetamaKey | ketama_selector.go:19 | the default context key name, "grpc-lb-ketama-key" |
| Ketama.WrapAddr | ketama_selector.go:34-36 | a virtual node name is the address, then '-', then the copy index in decimal digits |
| Ketama.UpWrapAddr | ketama_selector.go:38-41 | the result is the longest '-'-free prefix of the node name |
| Ketama.UpWrapAddrOfWrapAddr | ketama_selector.go:34-41 | a virtual node maps back to its endpoint if and only if the endpoint contains no '-' |
| Ketama.UpWrapAddrPrefix | ketama_selector.go:38-41 | splitting `a`, a '-' and any text at '-' gives back the '-'-free `a` |
| Ketama.WrapAddrInjective | ketama_selector.go:34-36 | distinct (endpoint, copy) pairs give distinct virtual nodes |
| Ketama.RingOfAdd | ketama_selector.go:43-53 | adding a new endpoint's record adds exactly its virtual nodes to the ring it determines |
| Ketama.RingOfDelete | ketama_selector.go:55-66 | deleting a record removes exactly that endpoint's virtual nodes from the ring |
| Ketama.RingOfSameWeights | ketama_selector.go:82 | the ring does not depend on loads or connected flags |
| Ketama.RingNodeResolves | ketama_selector.go:75-80 | when no endpoint contains a '-', every ring node maps back to a registered endpoint |
| Ketama.RoutingKey | ketama_selector.go:73 | a key is found exactly when the context holds a string under the key name, and it is that string |
| Ketama.HashRing.constructor | ketama_selector.go:28 | a new ring is empty |
| Ketama.HashRing.Add | ketama_selector.go:49 | the ring gains the node |
| Ketama.HashRing.Remove | ketama_selector.go:61 | the ring loses the node |
| Ketama.HashRing.Get | ketama_selector.go:75 | a lookup succeeds exactly when the ring is non-empty and then returns one of its nodes; otherwise it returns the empty string |
| Ketama.KetamaSelector.constructor | ketama_selector.go:23-32 | an empty key name becomes "grpc-lb-ketama-key"; the book and the ring start empty and consistent |
| Ketama.KetamaSelector.Add | ketama_selector.go:43-53 | the book's `Add`; on success the ring gains exactly the endpoint's virtual nodes for copies 0 to `Weight-1`; on failure the ring is unchanged |
| Ketama.KetamaSelector.Delete | ketama_selector.go:55-66 | the book's `Delete`; on success the ring loses exactly the virtual nodes for the weight the record had before deletion; on failure the ring is unchanged |
| Ketama.KetamaSelector.Get | ketama_selector.go:68-96 | an empty list gives `AddrListEmpty` and no change; otherwise the ring is consulted exactly when a string key is present; the call succeeds, raising that endpoint's load by one, exactly when the ring node maps back to a listed, connected endpoint; every other case gives `NoAvailableAddress`, the zero address and no change |
| EtcdWatcher.Window | registry/etcd3/watcher.go:53 | the heartbeat window, 300 seconds in nanoseconds |
| EtcdWatcher.Step | registry/etcd3/watcher.go:43-62 | one record emits at most one update and leaves every other key's heartbeat as it was |
| EtcdWatcher.Replay | registry/etcd3/watcher.go:41-66 | a run of records emits at most one update per record |
| EtcdWatcher.PutUndecodable | registry/etcd3/watcher.go:46-51 | a put whose value does not decode emits nothing and leaves the heartbeats unchanged |
| EtcdWatcher.PutFresh | registry/etcd3/watcher.go:52-56 | a put for a key with no heartbeat emits one `Add` carrying the decoded address and metadata, and stamps the key with the current time |
| EtcdWatcher.PutKnown | registry/etcd3/watcher.go:52-56 | a put whose heartbeat is at most 300 s old emits nothing and keeps the old stamp; one strictly older emits one `Add` and refreshes the stamp |
| EtcdWatcher.DeleteAlwaysEmits | registry/etcd3/watcher.go:57-62 | a delete always removes the key's heartbeat and emits exactly one `Delete` naming the raw key, with empty metadata |
| EtcdWatcher.ReplayAppend | registry/etcd3/watcher.go:41-43 | handling two runs of records one after the other is handling their concatenation, so updates come out in record order |
| EtcdWatcher.DuplicatePutSuppressed | registry/etcd3/watcher.go:52-56 | two decodable puts of one key, the second within 300 s of the first, emit at most one `Add`, and exactly one when the key was new |
| EtcdWatcher.DeleteThenPut | registry/etcd3/watcher.go:52-62 | a delete followed by a decodable put of the same key always emits the `Delete` and then an `Add` |
| EtcdWatcher.Watcher.constructor | registry/etcd3/watcher.go:28-37 | a new watcher has no heartbeats and nothing queued |
| EtcdWatcher.Watcher.HandleRecord | registry/etcd3/watcher.go:43-63 | the heartbeats and the queue become what `Step` gives for the record |
| EtcdWatcher.Watcher.HandleResponse | registry/etcd3/watcher.go:42-64 | the records of one response are handled in order, as `Replay` gives |
| EtcdWatcher.Watcher.Watch | registry/etcd3/watcher.go:40-66 | all responses are handled in order, as `Replay` over all their records gives |
| EtcdWatcher.Watcher.Next | registry/etcd3/watcher.go:71-73 | returns exactly one update, the oldest queued, and removes it from the queue |
| EtcdWatcher.ExtractAddrs | registry/etcd3/watcher.go:75-95 | an absent response or an absent list gives nothing; otherwise the result is `Decoded`: the present values that decode, in order |
| EtcdWatcher.DecodedAppend | registry/etcd3/watcher.go:82-92 | extraction over a concatenation is the concatenation of the extractions |
| EtcdWatcher.DecodedLength | registry/etcd3/watcher.go:82-92 | at most one node per pair, and exactly one per pair when every value is present and decodes |
| EtcdWatcher.DecodedMembers | registry/etcd3/watcher.go:82-92 | a node is extracted if and only if some pair has a present value that decodes to it |

## Left out

- Random numbers and clocks. `math/rand` is left out: the random start is the parameter `rnd`, standing for the non-negative `r.Int()`. `time.Now` is left out too: each watch record carries its handling time in nanoseconds.
- The two `time.Now()` calls of a put (the check and the stamp) are taken as one instant.
- The consistent-hash ring's internals are not part of this model (`NewKetama(10, nil)`, the hash function, virtual-point placement). The ring is the set of its node names, and a lookup returns some node of a non-empty ring. As a consequence, the property that equal keys route to the same node is not modelled, and neither is minimal disruption.
- Statistical claims are not modelled: selection frequency proportional to weight, and the uniformity of the random start.
- JSON decoding of node data is a parameter, `decode`, a total function returning an `Option`.
- The conversion of raw key bytes to a string is not modelled: keys are strings.
- The Go `grpc.Address.Metadata` type assertion is reduced to `Option<map<string, string>>`.
- The nil metadata map of a delete update is the empty map.
- The watcher's goroutine, the etcd watch call, context cancellation and `Close`, and the update channel are left out. The channel's capacity of 1000 and its blocking send and receive are not modelled. The channel is the `updates` queue.
- EtcdWatcher.Watcher.Next: requires a non-empty queue because the source blocks on an empty channel; its always-nil error result is omitted.
- Logging (`fmt.Println`, `grpclog`) is left out.
- `NewBaseSelector` is left out. It pre-fills `addrs` with five empty strings, and no selector uses it.
- `GetAddrMap` (selector.go:112-114) is left out: it only exposes the map, which is the `addrMap` field here.
- Load counters are unbounded integers. The 64-bit overflow of `Load++` and `Load--` is not modelled.
- `Delete` compacts the slice in place with `copy`. Here the list is a sequence and the result is the same sequence value. Aliasing of the underlying array is not modelled.
- Go's randomised map iteration order in `Up` and `AddrList` is a nondeterministic choice of the next key.
- Ketama.KetamaSelector.Get: the ring's choice is the ghost out-parameter `target`. The contract relates the result to that choice, not to a hash of the key.
- Locking and concurrency are left out. The selectors take no lock. Neither concurrent callers of a selector nor the watcher goroutine (registry/etcd3/watcher.go:39) running beside its readers are modelled.
- The consul example client (`examples/consul/client/main.go`) is left out: it is wiring and an entry point.
