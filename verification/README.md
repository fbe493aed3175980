# Joyride, modelled and proved in Dafny

This project models the two CoreDNS plugins of Joyride and proves what they do over whole runs.

**docker-cluster** keeps DNS records for Docker containers and replicates them between nodes by gossip. Each node
holds a store of served addresses (`data`) and last-write-wins stamps (`meta`). The watcher turns container events into
plain store updates and then announces them with a stamp; peers apply announcements one by one and merge whole states.

- `Names.dfy`: lowercased keys and the total order on stamps.
- `RecordStore.dfy`, `Records.dfy`: the store as a value, and the object whose methods copy and swap its maps.
- `Convergence.dfy`: what any sequence of stamped messages leaves behind, and when delivery order cannot matter.
- `AntiEntropy.dfy`, `Delegate.dfy`: merges, the bounded inbox, the announcements.
- `Linearizability.dfy`: the store under any interleaving of locks, loads and stores.
- `Cluster.dfy`: any number of nodes over a network that loses, repeats and reorders.
- `Watcher.dfy`, `DockerWatcher.dfy`: container events, tracked containers and served names.
- `Replication.dfy`: an announcing node, its peer, and gossip that interferes with a handler.

**traefik-externals** serves the hosts named in a directory of Traefik files.

- `Text.dfy`, `EnvTemplate.dfy`, `TraefikParser.dfy`: scanners, placeholders, comments, rules.
- `Reload.dfy`: which files count, and why the served map keeps up with the directory.

`dafny verify dfyconfig.toml` checks the whole project.

Where a promise does not hold of the code as it stands, the code is modelled as it stands, a lemma exhibits a failing
run, and another gives the exact condition:

- *Exports can be torn.* `GetAllWithMeta` loads the addresses and the stamps separately, without the lock
  (plugins/docker-cluster/records.go:232-233). An add accepted in between makes an export pair the old address with the
  new stamp (`Linearizability.TornExportExists`), and a peer that merges it stores a pair nobody announced
  (`Cluster.ProvenanceCanFail`). A removal accepted in between makes it report the zero stamp, which a peer then stores
  and nobody announced (`Cluster.StampCanBeLost`). Stored addresses were always announced, stored stamps were announced
  or are zero (`Cluster.PartsAreAlwaysKnown`). Stored address and stamp were announced together throughout a run exactly
  when every merge that takes effect takes an entry at whose name its export was not torn
  (`Cluster.StoredPairsAreGenuineIff`); a torn export that nobody merges harms no store (`Cluster.TornButHarmless`).
- *A push/pull exchange need not equalise.* The comment at plugins/docker-cluster/delegate.go:64 expects a full sync to
  recover what was missed. A node that stopped serving a name but kept its stamp refuses the other's older
  record and cannot tell it so (`Replication.LostStopIsNotRecovered`); two nodes that serve a name they have not stamped
  yet swap their addresses (`AntiEntropy.UnstampedSwap`). `AntiEntropy.ExchangeEqualisesIff` gives the exact condition,
  for any two stores.
- *Delivery order can matter* once a removal is newer than every add of a name, or two of its greatest adds disagree
  (`Convergence.BeatenTopSplits`, `Convergence.TopConflictSplits`); never otherwise
  (`Convergence.DeliveryOrderIsImmaterialIff`).
- *A removal can get stuck at a peer* when a later handler does not read a later clock value
  (`Replication.StopIsHeardIff`); `Replication.ReplicationIsExactIff` gives the exact condition for whole runs.
- *A shared name can be lost.* The watcher does not count claims (`Watcher.SharedNameIsLost`,
  `Watcher.RecreatedContainerLosesName`); `Watcher.ExactThroughoutIff` gives the exact condition for whole runs and
  `Watcher.ExactNowIff` the one for a single moment.
- *A replacement can strike the wrong place*, because a value is itself a placeholder
  (`EnvTemplate.ValueIsReplacedAgain`) or completes a literal to one (`EnvTemplate.LiteralBecomesPlaceholder`).
  `EnvTemplate.LoopIsInPlaceIff` says exactly when every replacement strikes its own placeholder.
- *A slow reload can finish last.* A reload takes no lock, and neither a new event nor a stop waits for one that is
  under way (plugins/traefik-externals/file_watcher.go:149-157), so an older reading of the directory can replace a newer
  one for good (`Reload.StaleReload`). `Reload.CacheAgreesIff` gives the exact condition; it is met while reloads finish
  in the order in which they read (`Reload.CacheAgrees`).

## Model

| member | source | states |
|---|---|---|
| Names.LowerIdempotent | plugins/docker-cluster/records.go:48 | Stored keys are in normal form: lowercasing a key again changes nothing. |
| Names.LowerEqualIff | plugins/docker-cluster/records.go:48 | Two names have one key exactly when they differ at most in the case of letters. |
| Names.LowerFixedIff | plugins/docker-cluster/records.go:48 | The names that are their own keys are exactly those without capital letters. |
| Names.StampTotalOrder | plugins/docker-cluster/records.go:141-146 | The comparison of (timestamp, node name) is a total order on stamps. |
| Names.ExceedsIff | plugins/docker-cluster/records.go:144-146 | The node name that wins a tie is the one that extends the other or has the greater character where the two first differ. |
| RecordStore.AcceptsIff | plugins/docker-cluster/records.go:137-204 | A stamped add or removal takes effect exactly when it beats the stamp on record, by a later time or at equal times by the greater node name, and a removal only on a served name. |
| RecordStore.LookupAfter | plugins/docker-cluster/records.go:47-106 | After a plain add or remove of a name, exactly its case variants are answered anew; every other name is answered as before. |
| RecordStore.LookupAfterMessage | plugins/docker-cluster/records.go:101-227 | The same for a stamped message that takes effect. |
| RecordStore.NamesShareRecordIff | plugins/docker-cluster/records.go:101-106 | Every store answers two names alike exactly when they are case variants. |
| DockerRecords.Copy | plugins/docker-cluster/records.go:56-60 | The copying loop yields exactly the map it copies. |
| DockerRecords.CopyWithout | plugins/docker-cluster/records.go:85-91 | The copying loop yields the map without the one key. |
| DockerRecords.Records.constructor | plugins/docker-cluster/records.go:37-42 | A new store serves nothing and has no stamps. |
| DockerRecords.Records.AddPlain | plugins/docker-cluster/records.go:47-65 | A plain add overwrites the address under the lowercase name whatever its stamp, and leaves the stamps alone. |
| DockerRecords.Records.RemovePlain | plugins/docker-cluster/records.go:71-95 | A plain remove takes the lowercase name off and keeps its stamp. |
| DockerRecords.Records.LookupHost | plugins/docker-cluster/records.go:101-106 | A lookup finds exactly the served lowercase name and returns its address, or the empty string. |
| DockerRecords.Records.AddWithMeta | plugins/docker-cluster/records.go:130-174 | Reports true exactly when no equal or newer stamp is on record; then address and stamp are stored, else nothing changes. |
| DockerRecords.Records.RemoveWithMeta | plugins/docker-cluster/records.go:179-227 | Reports true exactly when the name is served under an older stamp or none; then address and stamp both go. |
| DockerRecords.Records.ApplyMessage | plugins/docker-cluster/records.go:249-258 | Dispatches on the action; an unknown action is refused and changes nothing. |
| DockerRecords.Records.GetAllWithMeta | plugins/docker-cluster/records.go:231-245 | Reports every served name with its stamp, or with the zero stamp when it has none. |
| RecordStore.RunKeepsShape | plugins/docker-cluster/records.go:249-258 | Any messages keep keys lowercase, served names stamped, and served and stamped names equal where they were. |
| RecordStore.RunAdds | plugins/docker-cluster/records.go:130-174 | Announcing a list of adds under one stamp, repeats and case variants included, sets exactly the names without an equal or newer stamp. |
| RecordStore.RunRemoves | plugins/docker-cluster/records.go:179-227 | Announcing a list of removes under one stamp takes off exactly the served names whose stamp is older. |
| Convergence.LastRemovalExists | plugins/docker-cluster/records.go:189-204 | In any run the last accepted removal of a name is well defined. |
| Convergence.MixedRun | plugins/docker-cluster/records.go:130-227 | After any adds and removes from an empty store a name is present exactly when an add follows its last accepted removal, with the first greatest-stamped add of that suffix as its entry. |
| Convergence.FirstGreatestUnique | plugins/docker-cluster/records.go:140-147 | That greatest add is unique. |
| Convergence.GreatestAddWins | plugins/docker-cluster/records.go:140-204 | If no add or removal of a name is newer than some add of it, every delivery order ends with that add, also against a removal with the same stamp, provided adds that share the stamp agree on the address. |
| Convergence.AddsAreServed | plugins/docker-cluster/records.go:130-174 | After adds only, exactly the added names are served, each with its greatest add. |
| Convergence.AddsConverge | plugins/docker-cluster/records.go:130-174 | Two deliveries of the same adds, in any order and with any repetition, leave identical stores. |
| Convergence.TopConflictSplits | plugins/docker-cluster/records.go:144-146 | If two adds share a name's greatest stamp but not the address, and no removal is newer, two deliveries of the same messages leave different stores. |
| Convergence.BeatenTopSplits | plugins/docker-cluster/records.go:189-224 | If a removal is newer than every add of its name, two deliveries of the same messages leave different stores, because removals leave nothing behind. |
| Convergence.DeliveryOrderIsImmaterialIff | plugins/docker-cluster/records.go:130-258 | Every order and repetition of the same adds and removals leaves one store exactly when, for each name, no removal is newer than its greatest adds and those agree on the address. |
| Convergence.AddsConvergeIff | plugins/docker-cluster/records.go:130-174 | Delivery order and repetition cannot matter exactly when the adds at each name's greatest stamp agree on the address. |
| AntiEntropy.MergeAnyOrder | plugins/docker-cluster/delegate.go:104-114 | Merging an exported state gives the same store in whatever order the map is walked. |
| AntiEntropy.ExchangeEqualisesIff | plugins/docker-cluster/delegate.go:76-115 | For any two stores, after each node merges what the other exported both export the same exactly when neither remembers a stop that shuns the other's record, and no name's two records are both taken or both refused though they differ. |
| AntiEntropy.CrossesOnlyIf | plugins/docker-cluster/records.go:141-146 | Two stamped records of a name are both taken or both refused only when they share the stamp and differ in the address. |
| AntiEntropy.UnstampedSwap | plugins/docker-cluster/records.go:231-245 | Two nodes that serve a name under different addresses and have not stamped it swap the addresses. |
| AntiEntropy.UnstampedDisplacesIff | plugins/docker-cluster/records.go:237-242 | The export of a name that is not stamped yet displaces a peer's stamped record exactly when that record bears a time before zero. |
| AntiEntropy.ExchangeEqualisesSettled | plugins/docker-cluster/delegate.go:76-115 | When served and stamped names coincide on both nodes, the exchange makes stores and exports equal exactly when equal stamps carry equal addresses. |
| AntiEntropy.JoinIdempotentIff | plugins/docker-cluster/delegate.go:94-115 | Merging one's own state changes nothing exactly when every served name is stamped. |
| AntiEntropy.JoinCommutativeIff | plugins/docker-cluster/delegate.go:94-115 | Between nodes whose served and stamped names coincide, merging is commutative exactly when equal stamps carry equal addresses. |
| AntiEntropy.JoinAssociative | plugins/docker-cluster/delegate.go:94-115 | Merging is associative when served and stamped names coincide on the middle node, whatever the outer two hold. |
| AntiEntropy.MergeCommutesWithAddIff | plugins/docker-cluster/delegate.go:104-114 | An add before a merge and after it give the same store exactly when the add is refused anyway or no entry of the state has its name and stamp with another address. |
| AntiEntropy.DropsAreAbsorbed | plugins/docker-cluster/delegate.go:60-65 | Merging a state that covers the dropped adds gives the store that no drop would have given. |
| AntiEntropy.DroppedAddsAreRecovered | plugins/docker-cluster/cluster.go:255-259 | Because a sender applies an add before it broadcasts it, its later full state makes up for any of its adds a receiver dropped. |
| Delegate.ClusterDelegate.constructor | plugins/docker-cluster/delegate.go:27-40 | A new endpoint has an empty inbox. |
| Delegate.ClusterDelegate.NotifyMsg | plugins/docker-cluster/delegate.go:50-66 | A decoded message is queued when fewer than 256 wait and dropped otherwise; undecodable bytes change nothing; what was applied and what waits stay an in-order subsequence of what was received. |
| Delegate.ClusterDelegate.ProcessNext | plugins/docker-cluster/delegate.go:144-157 | The oldest waiting message is applied to the store and moves from the inbox to the applied ones. |
| Delegate.ClusterDelegate.Conservation | plugins/docker-cluster/delegate.go:50-66 | Received messages are exactly the applied, the waiting and the dropped ones. |
| Delegate.ClusterDelegate.LocalState | plugins/docker-cluster/delegate.go:76-90 | The exported state is the store's served names with their stamps. |
| Delegate.ClusterDelegate.MergeRemoteState | plugins/docker-cluster/delegate.go:94-115 | Every entry of a decoded state is applied once as an add, in some order; for states with lowercase keys that is the order-free merge. |
| Delegate.ClusterManager.NotifyRecordAdd | plugins/docker-cluster/cluster.go:239-260 | An add is applied locally under the node's own name and then broadcast; after shutdown nothing happens. |
| Delegate.ClusterManager.NotifyRecordRemove | plugins/docker-cluster/cluster.go:264-284 | A removal is applied locally under the node's own name and then broadcast; after shutdown nothing happens. |
| Linearizability.DecisionIsSequential | plugins/docker-cluster/records.go:130-227 | Whatever a writer decides from the maps it has loaded so far is what the sequential operation does and returns. |
| Linearizability.InvHolds | plugins/docker-cluster/records.go:47-227 | The concurrency invariant holds in every state of every schedule of any number of threads. |
| Linearizability.FreeMutexMeansReplay | plugins/docker-cluster/records.go:31-33 | Whenever the mutex is free, both maps are the sequential replay of the writes in lock order. |
| Linearizability.LookupsLinearise | plugins/docker-cluster/records.go:97-106 | A lock-free lookup answers as after some prefix of the writes that was current between its call and its return: with every write that had returned before the call, and none that had not taken the mutex by the return. |
| Linearizability.LockedWritesReturn | plugins/docker-cluster/records.go:50-64 | Every write that has taken the mutex has returned, except the one that holds it. |
| Linearizability.LoadsAreRecent | plugins/docker-cluster/records.go:50-64 | At any moment the served map is the replay of a prefix of the writes that has every returned write and no write that has not taken the mutex. |
| Linearizability.WritesReturnSequentially | plugins/docker-cluster/records.go:130-227 | Every write returns what it would return in the sequential replay. |
| Linearizability.ExportsReadTwoPrefixes | plugins/docker-cluster/records.go:231-245 | An export pairs the addresses after one prefix of the writes with the stamps after another, at most one write older. |
| Linearizability.TornExportExists | plugins/docker-cluster/records.go:232-233 | For any add that replaces an older one, some schedule exports the old address with the new stamp. |
| Cluster.AbsenceIsStable | plugins/docker-cluster/delegate.go:50-115 | Once a name is stored nowhere and nothing queued, in flight or half exported adds it, no run brings it back before a new announcement. |
| Cluster.PartsAreAlwaysKnown | plugins/docker-cluster/cluster.go:239-260 | In every reachable state each stored address was announced for its name, and each stored stamp was announced for its name by the node it names or is the zero stamp of an export that found none. |
| Cluster.ProvenanceHolds | plugins/docker-cluster/cluster.go:239-260 | While no export is torn, each stored name, address and stamp were announced together by the node the stamp names. |
| Cluster.ProvenanceKeptIff | plugins/docker-cluster/records.go:231-245 | An export keeps everything stored and in transit genuine exactly when what its first load saw still stands at its second load. |
| Cluster.ProvenanceHoldsIff | plugins/docker-cluster/records.go:231-245 | When adds of a name under one stamp carry one address, everything stored, queued and in transit was announced as it is, after every step of a run, exactly when no export of the run is torn. |
| Cluster.GenuineEntryIff | plugins/docker-cluster/records.go:235-242 | An entry exported from a genuine store was announced as it is exactly when its name still had its address at the second load. |
| Cluster.StateWasExported | plugins/docker-cluster/delegate.go:76-90 | Every state in transit was exported by an earlier step of the run. |
| Cluster.StoredPairsAreGenuineIff | plugins/docker-cluster/delegate.go:94-115 | When adds of a name under one stamp carry one address, every stored address and stamp were announced together, after every step of a run, exactly when every merge that takes effect takes an entry at whose name its export was not torn. |
| Cluster.TornButHarmless | plugins/docker-cluster/records.go:231-245 | There is a run with a torn export after which every stored pair is genuine. |
| Cluster.ProvenanceCanFail | plugins/docker-cluster/records.go:231-245 | There is a run after which a node serves an address under a stamp that was announced with another address. |
| Cluster.StampCanBeLost | plugins/docker-cluster/records.go:237-242 | There is a run after which a node serves an address under the zero stamp, which no node announced. |
| Watcher.Minus | plugins/docker-cluster/docker_watcher.go:403-417 | The names of one list missing from the other, compared case-sensitively. |
| Watcher.NamesOfAllMembers | plugins/docker-cluster/docker_watcher.go:221-226 | A sweep drops exactly the names of the containers it forgets. |
| Watcher.TurnIsMinimal | plugins/docker-cluster/docker_watcher.go:389-417 | A handler drops and adds no more than it must: a name that its container keeps is neither dropped nor added again. |
| Watcher.ClaimedStep | plugins/docker-cluster/docker_watcher.go:382-417 | A change of tracked containers drops, adds and keeps claimed names as its store updates do. |
| Watcher.NoOrphansAfter | plugins/docker-cluster/docker_watcher.go:208-230 | Without clustering, every served name is claimed by a tracked container and served at the host's address, shared and case-variant names included. |
| Watcher.ExactnessKeptIff | plugins/docker-cluster/docker_watcher.go:403-417 | A change keeps the served names exact exactly when no name it drops without adding back is still claimed. |
| Watcher.ExactThroughoutIff | plugins/docker-cluster/docker_watcher.go:208-230 | Exactly the claimed names are served after every change of a run exactly when no change of the run loses a name in that way. |
| Watcher.ExactNowIff | plugins/docker-cluster/docker_watcher.go:403-417 | At any moment exactly the claimed names are served exactly when each was added by some handler and dropped by no later one. |
| Watcher.UnsharedLosesNothing | plugins/docker-cluster/docker_watcher.go:352-363 | While no two tracked pairs share a lowercase name, no change loses a name. |
| Watcher.ExactAfter | plugins/docker-cluster/docker_watcher.go:208-230 | While names are not shared, also midway through a sync, exactly the tracked names are served, at the host's address. |
| Watcher.ServedAfterEvents | plugins/docker-cluster/docker_watcher.go:296-303 | Both results for every sequence of start, stop and sync events. |
| Watcher.SyncTracksListing | plugins/docker-cluster/docker_watcher.go:208-230 | After a sync exactly the listed containers with names are tracked, with their latest names. |
| Watcher.IdleEvents | plugins/docker-cluster/docker_watcher.go:340-363 | A start without valid names and a stop of an unknown container change nothing and announce nothing. |
| Watcher.SharedNameIsLost | plugins/docker-cluster/docker_watcher.go:352-363 | When one of two containers with the same name goes, the name is no longer served although still claimed. |
| Watcher.RecreatedContainerLosesName | plugins/docker-cluster/docker_watcher.go:212-229 | A sync that finds a container recreated under a new id loses its name, because it adds before it removes. |
| Replication.NodeFollowsWatch | plugins/docker-cluster/docker_watcher.go:352-432 | Handlers run one after the other give the tracked containers, store and announcements that the results below speak of. |
| Replication.TurnMessagesAre | plugins/docker-cluster/docker_watcher.go:419-431 | A handler announces a removal of each dropped name and then an add of each added one, all under one stamp. |
| Replication.OriginTurnData | plugins/docker-cluster/docker_watcher.go:403-431 | An undisturbed handler leaves the origin serving the old names without the dropped ones, plus the added ones, whatever its stamps. |
| Replication.PeerTurnData | plugins/docker-cluster/records.go:130-227 | The announcements of a handler do the same at a peer, except for removals whose stamp does not beat the peer's. |
| Replication.TurnReplicatesIff | plugins/docker-cluster/docker_watcher.go:419-431 | A handler keeps origin and peer in step exactly when none of its removals gets stuck. |
| Replication.ReplicationIsExactIff | plugins/docker-cluster/docker_watcher.go:352-432 | Origin and peer agree after every handler of a run exactly when no removal of the run gets stuck at the peer. |
| Replication.ExactReplication | plugins/docker-cluster/docker_watcher.go:352-432 | For every sequence of events with increasing clock readings, a fresh peer that hears the announcements in order answers every lookup as the origin does. |
| Replication.StopIsHeardIff | plugins/docker-cluster/docker_watcher.go:352-374 | When a container starts and stops, the origin no longer serves its name, and a peer that heard both announcements stops serving it exactly when the stop read the later clock value. |
| Replication.StopKeepsStamp | plugins/docker-cluster/docker_watcher.go:352-374 | An undisturbed stop takes a stamped name off and keeps its stamp. |
| Replication.LostStopIsNotRecovered | plugins/docker-cluster/delegate.go:76-115 | When the announcement of a stop is lost, a push/pull exchange leaves the name served at the peer and absent at the origin. |
| Replication.StoppedUntilBeaten | plugins/docker-cluster/records.go:140-147 | From then on the name stays away through any gossip and merges exactly until an add beats the kept stamp. |
| Replication.TasksMakeTurn | plugins/docker-cluster/docker_watcher.go:403-431 | The separate steps of a handler, undisturbed, amount to the handler of the replication results. |
| Replication.ServedIsStampedOrDue | plugins/docker-cluster/docker_watcher.go:403-431 | In every interleaving of the watcher with gossip and merges, each served name is stamped or its add is still to be announced. |
| DockerWatcher.IsValidHostname | plugins/docker-cluster/docker_watcher.go:468-485 | Accepts exactly names of 1 to 253 letters, digits, hyphens and dots that the DNS library accepts. |
| DockerWatcher.HostnameCharIff | plugins/docker-cluster/docker_watcher.go:472-480 | The characters of a hostname, by ASCII code. |
| DockerWatcher.LengthLimit | plugins/docker-cluster/docker_watcher.go:469-471 | Of the names that pass the other tests exactly those of up to 253 bytes are accepted. |
| DockerWatcher.ExtractHostnames | plugins/docker-cluster/docker_watcher.go:438-462 | Returns exactly the valid comma-separated parts of the wanted labels, each once, in order of first occurrence. |
| DockerWatcher.LabelsRoundTrip | plugins/docker-cluster/docker_watcher.go:438-462 | Hosts printed into labels, with commas between and any spaces around them, come back: exactly the valid ones, each once, and in order of first occurrence when all are valid. |
| DockerWatcher.DockerWatcher.AnnounceTurn | plugins/docker-cluster/docker_watcher.go:419-431 | Removals are announced before adds, all under one timestamp; without clustering nothing is announced. |
| DockerWatcher.DockerWatcher.UpdateContainer | plugins/docker-cluster/docker_watcher.go:382-432 | Tracks the new names, drops the old names that are gone, adds those that are new, announces both. |
| DockerWatcher.DockerWatcher.HandleContainerStart | plugins/docker-cluster/docker_watcher.go:340-349 | A start claims the container's names, and does nothing when it has none. |
| DockerWatcher.DockerWatcher.HandleContainerStop | plugins/docker-cluster/docker_watcher.go:352-379 | A stop forgets a tracked container, drops and announces its names, and does nothing for an unknown one. |
| DockerWatcher.DockerWatcher.Sweep | plugins/docker-cluster/docker_watcher.go:218-230 | Forgets every tracked container that was not listed, drops its names and reports them in the order of the walk. |
| DockerWatcher.DockerWatcher.SyncContainers | plugins/docker-cluster/docker_watcher.go:208-243 | A sync claims the listed containers one by one and then releases all others, in an order the map walk chooses. |
| Text.JoinSplit | plugins/traefik-externals/parser.go:157-181 | Splitting into lines and joining them again gives the text back. |
| Text.SplitJoin | plugins/traefik-externals/parser.go:157-181 | Joining lines and splitting them again gives the lines back. |
| Text.FirstOccurrencesOnce | plugins/traefik-externals/parser.go:214-217 | Keeps every element and no element twice. |
| Text.FirstOccurrencesGrow | plugins/traefik-externals/parser.go:214-217 | Later elements never move earlier ones. |
| Text.TrimSplits | plugins/docker-cluster/docker_watcher.go:448 | A text is white space around what trimming leaves of it, and that has none at its ends. |
| Text.TrimPadded | plugins/docker-cluster/docker_watcher.go:448 | Trimming takes off exactly the padding of a text. |
| Text.IsSpaceIff | plugins/docker-cluster/docker_watcher.go:448 | The white space of ASCII. |
| Text.FoundFirst | plugins/traefik-externals/parser.go:63-72 | A match yields the text between the opening and the next closing character, and scanning resumes after it. |
| Text.FoundStandsIn | plugins/traefik-externals/parser.go:63-72 | Everything found stands in the text, non-empty, between the opening and the next closing character; unclosed text is not found. |
| EnvTemplate.ResolveEnvTemplate | plugins/traefik-externals/parser.go:224-248 | The loop replaces the first occurrence of each placeholder in turn, and returns the empty string when a variable is unset or empty. |
| EnvTemplate.EmptyIffUnset | plugins/traefik-externals/parser.go:238-242 | For every non-empty template the result is empty exactly when some referenced variable is unset or empty. |
| EnvTemplate.StrikesIffFresh | plugins/traefik-externals/parser.go:244 | A replacement strikes right after a given text exactly when the placeholder occurs nowhere further left, not even overlapping itself. |
| EnvTemplate.LoopIsInPlaceIff | plugins/traefik-externals/parser.go:224-248 | Every replacement of the loop strikes its own placeholder exactly when no placeholder's text occurs in what is substituted before it; then the loop equals substituting every placeholder at its own position. |
| EnvTemplate.ResolveIsSubstitution | plugins/traefik-externals/parser.go:224-248 | So it does when the values and the text before the last placeholder hold no opening brace. |
| EnvTemplate.PlaceholderMatches | plugins/traefik-externals/parser.go:74-75 | A printed placeholder is recognised, with its name. |
| EnvTemplate.MatchAtIff | plugins/traefik-externals/parser.go:74-75 | A text begins with a placeholder, and with which one, exactly as the pattern says: {{env, blanks, a quoted non-empty name, }}. |
| EnvTemplate.TemplateRead | plugins/traefik-externals/parser.go:228-229 | The placeholders of a printed template are its variables, in order. |
| EnvTemplate.TemplateRoundTrip | plugins/traefik-externals/parser.go:224-248 | Printing a template from literal text and variables and resolving it puts every value in its place, when all are set and no text or value has an opening brace; the result is empty when one is not set. |
| EnvTemplate.ValueIsReplacedAgain | plugins/traefik-externals/parser.go:244 | When a value is itself a later placeholder, the loop and the substitution differ. |
| EnvTemplate.LiteralBecomesPlaceholder | plugins/traefik-externals/parser.go:244 | Also without a brace in any value: a value that completes a literal to a later placeholder makes loop and substitution differ. |
| EnvTemplate.MisplacedCanAgree | plugins/traefik-externals/parser.go:244 | A replacement can strike the wrong place and the loop still agree with the substitution, by replacing a placeholder by itself. |
| TraefikParser.StripCommentFrom | plugins/traefik-externals/parser.go:160-178 | Cuts the line at its first # outside backticks. |
| TraefikParser.StripLineEnds | plugins/traefik-externals/parser.go:163-177 | A line is kept up to its first # with an even number of backticks before it, and whole when there is none. |
| TraefikParser.StripComments | plugins/traefik-externals/parser.go:156-182 | Does so on every line and keeps the line structure. |
| TraefikParser.StripIdempotent | plugins/traefik-externals/parser.go:156-182 | Stripping twice is stripping once. |
| TraefikParser.CommentIsIgnoredIff | plugins/traefik-externals/parser.go:163-177 | A comment after a line changes nothing exactly when the line's backticks pair up or it already has a comment. |
| TraefikParser.CommentsAreIgnored | plugins/traefik-externals/parser.go:156-182 | Comments added to any such lines of a text leave the stripped text as it was. |
| TraefikParser.GuardedIff | plugins/traefik-externals/parser.go:163-171 | Scanning a whole text, with a line break ending backticks, finds a comment exactly when some line has one. |
| TraefikParser.ExtractHostsFromMatches | plugins/traefik-externals/parser.go:185-220 | The loops collect the resolved, lowercased hosts, each once, in order of first occurrence, after those already known. |
| TraefikParser.ParseContent | plugins/traefik-externals/parser.go:131-152 | Hosts of Host() rules come before those of HostSNI() rules, no host twice. |
| TraefikParser.QuotedNamesRead | plugins/traefik-externals/parser.go:71-72 | The names of a printed multi-host rule are read back. |
| TraefikParser.RulesAreFound | plugins/traefik-externals/parser.go:61-66 | In any text that opens no other rule, other conditions with parentheses included, exactly the printed rules of a kind are found; Host() does not match HostSNI(). |
| TraefikParser.PrintThenParse | plugins/traefik-externals/parser.go:131-152 | Printing any rules over templates into any text that opens no other rule and has no comment, with # allowed between backticks, and parsing gives the resolved Host names, then the HostSNI names, each once. |
| TraefikParser.TidyPrint | plugins/traefik-externals/parser.go:163-177 | Rules with names on one line, in text that closes its backticks and has # only between them, have no comment in them. |
| TraefikParser.CommentsDoNotParse | plugins/traefik-externals/parser.go:131-182 | Comments after lines whose backticks pair up change nothing about that. |
| TraefikParser.PlainRoundTrip | plugins/traefik-externals/parser.go:131-220 | Names without placeholders come back lowercased, Host before HostSNI, each once in order of first occurrence. |
| TraefikParser.OneRule | plugins/traefik-externals/parser.go:63-66 | The text of a single Host or HostSNI rule yields its name in lower case. |
| TraefikParser.ParseMembers | plugins/traefik-externals/parser.go:185-220 | The hosts of a text are exactly the quoted templates inside its rules whose variables are set, resolved and lowercased. |
| Reload.EventCountsIffNameCounts | plugins/traefik-externals/file_watcher.go:136-144 | The event handler's test on a path and the reload's test on a name agree. |
| Reload.ExtAtDot | plugins/traefik-externals/file_watcher.go:187 | The extension of a name begins at its last dot. |
| Reload.NoExt | plugins/traefik-externals/file_watcher.go:187 | A name without a dot has no extension. |
| Reload.NameCountsIff | plugins/traefik-externals/file_watcher.go:186-196 | A name counts exactly when it ends in .yml or .yaml and is none of the four middleware files. |
| Reload.LoadedIff | plugins/traefik-externals/file_watcher.go:170-206 | A host is served, at the host's address, exactly when a regular readable file of at most one megabyte, with a name that counts, has it. |
| Reload.RulesAreServed | plugins/traefik-externals/file_watcher.go:162-212 | Every plain name of every rule printed into such a file is served, whatever else the directory holds. |
| Reload.IgnoredChange | plugins/traefik-externals/file_watcher.go:186-196 | Changing a file that does not count changes nothing a reload would serve. |
| Reload.ExternalRecords.Lookup | plugins/traefik-externals/records.go:68-73 | A lookup finds exactly the served lowercase name and its address. |
| Reload.ExternalRecords.ReplaceAll | plugins/traefik-externals/records.go:93-103 | Serves exactly the lowercased keys, each with an address given for it. |
| Reload.FileWatcher.HandleEvent | plugins/traefik-externals/file_watcher.go:135-159 | Arms the debounced reload exactly for events about files that count. |
| Reload.FileWatcher.LoadAllConfigs | plugins/traefik-externals/file_watcher.go:162-212 | Serves exactly the hosts of all eligible, readable files at the host's address, in whatever order the directory is listed; an unreadable directory changes nothing. |
| Reload.LatestStep | plugins/traefik-externals/file_watcher.go:52-73 | Each file change, event, read, swap, start and halt keeps the latest reload current, or another one coming. |
| Reload.IgnoredFilesAreQuiet | plugins/traefik-externals/file_watcher.go:136-144 | With nothing pending, no reload comes of any changes of files that do not count. |
| Reload.CacheAgreesIff | plugins/traefik-externals/file_watcher.go:135-212 | In every running state with no waiting event that counts, no reload armed or under way and no failed one, the latest reload has read what the directory holds; exactly the hosts of the eligible files are served if the reload that swapped last read after the last change that counts, and else exactly when what it read loads the same. |
| Reload.CacheAgrees | plugins/traefik-externals/file_watcher.go:135-212 | While reloads swap in the order in which they read, exactly the hosts of the eligible files are served in every such state. |
| Reload.StaleReload | plugins/traefik-externals/file_watcher.go:149-157 | When a file is written twice with different hosts, there is a run that comes to rest serving those of the first text. |

## Left out

- Names.LowerIdempotent: lowercasing is ASCII; Go also folds letters beyond ASCII. A character of the model is one byte.
- DockerWatcher.ExtractHostnames: trims ASCII white space only, and takes the DNS library's name check as a given set of names.
- Replication.ServedIsStampedOrDue: covers a node that is not shut down; after shutdown announcements are ignored.
- Cluster.ProvenanceHolds: node names are taken to be non-empty, as the configuration makes them; the model also allows an export to see stamps that are one write older than any real interleaving would show.
- EnvTemplate.LoopIsInPlaceIff: is exact about where the replacements strike, not about the resulting text; a misplaced replacement can give the right text by accident (EnvTemplate.MisplacedCanAgree).
- Cluster.AbsenceIsStable: concerns the stamped path; the watcher's plain adds are modelled in Replication.
- Reload.CacheAgrees: a reload reads all files at one instant, before it swaps the store at a later one; the 500 ms debounce is only "armed" and "fired".
- Linearizability.InvHolds: a message with an unknown action, which is refused before the mutex is taken, makes no step there.
- Timestamps are unbounded integers; only comparisons are made on them.
- JSON encoding and decoding: messages and states arrive as values, or as "undecodable".
- memberlist, its transmit queue, UDP discovery, joining and shutdown: the network is a set of messages and states that may be delivered any number of times, in any order, or lost.
- Docker client calls, the event stream, reconnection and back-off: the model is fed start, stop and list events.
- Answering DNS queries, metrics, the version endpoint, configuration parsing and deployment files.
- The warning about HostRegexp() and all logging.
- The Add and Remove methods of the traefik-externals store, which the reload path does not use.
