# FreePlace: convergent state under caps, verified

FreePlace is a shared pixel canvas and chat on a peer-to-peer network. Its contracts keep
state that any peer may merge with any other: tiles of signed placements, a chat ring
buffer, a registry of admitted identities, and a facade pointer. Storage is capped, so
merging also evicts, and a TypeScript client re-implements the merging to repair writes
the network refuses. This project models those cores and proves that they converge, what
the derived views promise, and that client and contract agree.

## How the proofs are built

* **Truncation as choice.** `Choice` treats eviction as a function from key sets to key
  sets and derives that truncating early never matters from two simple laws. `Stores` adds
  slots with winners and gives a normal form on sets; `Layers` stacks two stores, the lower
  fed by what the upper displaces, and gives one join for inserting, baking and merging.
* **Stateful code against normal forms.** `Chat` and `Tile` (Rust), `ChatMirror` and
  `TileMirror` (TypeScript) are classes whose methods loop and evict like the program. Each
  method is proved to compute the set-level normal form, also for incoming states that are
  mis-keyed or over the caps. `ChatLaws`, `TileLaws`, `CanvasLaws` and `TileMirrorLaws`
  prove the algebra, synchronisation, filters and canvas about these forms. Caps are
  parameters wherever the Rust code makes them parameters.
* **Runs.** `Replication` is a step system of peers exchanging states and deltas over a
  network that delays, drops, repeats and reorders. `TileContract`, `ChatContract` and
  `FacadeContract` are the contracts over runs of update calls. `Fallback` delivers one
  delta over a failing channel while others write.
* **The canvas beyond the caps.** `WindowLaws` compares the cooldown over what a full tile
  has kept with the cooldown over a longer history.
* **The canvas on stored states.** `CanvasRuns` shows that whatever passes the contract's
  structure check stays clear of the corner cases of the filter, so the cooldown, canvas and
  client theorems hold for every state of every run without further conditions.
* **Registry.** `RegistryValues`, `RegistryLaws` and the class in `Registry`: smallest core
  and highest nickname per identity over any history. `RegistryList` and `RegistryWire`: the
  client's sorted list, spliced over generic CBOR records.
* **Bytes.** `TextKeys` (sortable string keys), `Cbor` and `CborLaws` (encoder and reader),
  `WireFields`, `TileWire`, `ChatWire` and `RegistryWire` (the client's merges from bytes to
  bytes), `Facade` (framing) and `Signing` (signature preimages of every kind).

* **Orders, checks and formats on the fields.** What several operations share is stated once
  more without naming it: which placement a pixel shows (`CanvasLaws.CanvasExact`), which
  messages a room holds and a delta sends (`ChatLaws.HeldExact`, `Chat.ChatState.Delta`),
  which admission survives (`Registry.RegistryState.InsertRecord`), what a contract accepts
  (`FacadeContract.AcceptableExact`, `EveryStateAuthentic` of the tile and chat contracts),
  when a write gets through (`Fallback.UpdateOrPut`), and the bytes that are signed or sent
  (the layouts in `Signing`, `CborLaws.HeadLayout`).

Signature checking, hashing, the host clock, the registry lookup of a tier and Rust-side
decoding are parameters. Ties between equal signatures are handled by explicit coherence
conditions where the program relies on them (registry, facade); tiles and chat need none,
because their slot order looks at every field.

## Where the code and its comments differ

* `common/src/tile.rs:221-224` says covering baked entries keeps the converged delta empty
  even for crafted shapes. The summary takes the map key while the delta compares the
  placement's own time. `TileLaws.OwnDeltaExact` gives the exact condition for all maps: a
  placement is sent to its own holder if and only if its time is beyond every time key filed
  under its author key. `TileLaws.MisKeyedDeltaNotEmpty` is such an input and
  `TileLaws.CoveredMisKeyed` a mis-keyed one that is not. The input is a state handed to
  `delta` unchecked: `verify_state_structure` refuses it and updates re-key what they merge.
* `common/src/tile.rs:236-240` promises that a fresh peer rebuilds the full state from a
  delta alone. `TileLaws.FreshPeerRebuilds` shows this holds exactly for tiles that bake only
  below full live logs. `TileLaws.BakedAloneNotRebuilt` is an input that fails, and
  `TileContract.BakedAloneIsStored` shows that one accepted update stores it.
* The cooldown addition saturates (`common/src/tile.rs:298`), so near the greatest u64 the
  spacing promise can fail; the other cooldown promises hold for all times.
  `CanvasLaws.SpacingExact` says exactly when spacing holds, in terms of the stored logs.
  `CanvasLaws.CooldownCountExact` says exactly when the bound on the count does, which spacing
  implies. `CanvasLaws.SaturationBreaksSpacing` is an input that fails both. No state the
  contract stores comes near it (`CanvasRuns.SoundFitsAll`).
* `web/src/state.ts:1-7` promises that the client derives what the core derives. The client
  subtracts where the core saturates. Its reader refuses every number above 2^53 - 1
  (`CborLaws.DecodeBounded`), and on such times the two agree without condition
  (`TileMirrorLaws.SafeClientAgrees`, `CanvasRuns.DecodedClientAgrees` for whatever bytes
  decode). `TileMirrorLaws.ClientAgrees` compares the two formulas over exact integers of any
  size; above 2^53 - 1 that is not what the client computes.
* `common/src/tile.rs:269-271` says eviction cannot launder a burst into visible pixels. While
  no author exceeds K + M distinct times nothing changes (`CanvasLaws.WithinCapsNothingLost`).
  Beyond, `WindowLaws.WindowAgrees` bounds the effect on each author: of the placements kept,
  as many or one more are valid as over the longer history, the same from the first one valid
  in both, and all the same if and only if the oldest kept was valid in the longer history.
  `WindowLaws.LosingRevives` is a history, under small caps, where a rejected one turns valid.
* `contracts/tile-contract/src/lib.rs:101` says every author in the tile must be admitted, but
  lines 129-131 return before the registry is asked when no placement is live. A valid tile
  has only admitted authors, whatever registry is fetched, if and only if it holds a live
  placement or nothing at all (`TileContract.ValidAdmitsExact`);
  `TileContract.BakedAloneIsStored` is a stored tile that is valid though nobody is admitted.
* `common/src/registry.rs:402` calls the merge commutative. It commutes exactly where equal
  core keys carry equal cores and equal nickname keys equal nicknames
  (`RegistryLaws.MergeSemilattice`); `RegistryLaws.TieKeepsOwn` is an input that fails.
  `contracts/registry-contract/src/lib.rs:63-98` verifies every record first, so two stored
  replicas come to such a tie only if one signature is valid for two different cores.
* `contracts/facade-contract/src/lib.rs:109-126` answers a version summary; a state that is
  ahead by signature only, or a version-0 pointer against genesis, is not sent:
  `FacadeContract.VersionSyncExact`, with the inputs in `FacadeContract.VersionZeroNotSent` and
  `FacadeContract.TiedNotSent`. Both need the owner's signature: on a version-0 pointer, or on
  two pointers of one version (`FacadeContract.TiedPointersExist`).

## Model

| member | source | states |
|---|---|---|
| Choice.PathIndependence | common/src/chat.rs:164-167 | Why eviction may happen early: a choice that contracts, is hereditary and never shrinks as its set grows gives keep(keep(A) + B) = keep(A + B). |
| Choice.NestedHeredity | common/src/chat.rs:180-191 | The nested caps are hereditary: an id kept by "newest k per author, then newest n" from a set is kept from every subset that holds it. |
| Choice.NestedSizeMonotone | common/src/chat.rs:180-191 | Adding ids never lowers how many the nested caps keep. |
| Choice.TopDropsHead | common/src/chat.rs:186-188 | Deleting the surplus from the head of the sorted ids leaves exactly the cap newest. |
| Choice.FloodBound | common/src/chat.rs:180-191 | On id sets: the ids of one author displace at most k ids of the others. |
| Choice.GroupTopTotal | common/src/chat.rs:180-188 | All per-author quotas together hold at most (number of authors) times k ids. |
| Stores.Store.NormalAbsorbs | common/src/tile.rs:149-151 | Truncating early never matters: the normal form (slot winners in kept slots) of N(A) + B is the normal form of A + B. |
| Stores.Store.OnlySurvivorsMatter | common/src/chat.rs:218-235 | Offering part of a set has the effect of offering all of it if and only if the part contains every survivor of the whole. |
| Stores.Store.SameNormal | common/src/chat.rs:218-235 | Two sets have the same normal form if and only if both hold every survivor of their union. |
| Stores.LowerLayerAbsorbs | common/src/tile.rs:186-188 | Placements displaced in rounds leave the baked layer exactly as if displaced at once, although rounds also displace beaten duplicates. |
| Layers.Stack.JoinAssociates | common/src/tile.rs:208-219 | The two-layer join (insert the live part, bake the baked part) associates on arbitrary pairs of layers. |
| Layers.Stack.JoinIdempotent | common/src/tile.rs:208-219 | Joining with itself, or with nothing, changes nothing if and only if both layers are settled. |
| Layers.Stack.JoinSettles | common/src/tile.rs:208-219 | Every join is settled. |
| Layers.Stack.FromUnion | common/src/tile.rs:200-203 | Joining the states of two histories is the state of the union of the histories. |
| Layers.Stack.JoinHistory | common/src/tile.rs:261-265 | Inserting a history into any pair is joining with the state built from that history alone. |
| Layers.Stack.SameJoin | common/src/tile.rs:208-219 | Two offers to a state have the same effect if and only if each layer's survivors of both together are among what each offers to that layer. |
| ChatBuffer.RoomLawful | common/src/chat.rs:133-192 | Ids under the nested caps with slot_beats as tie-break obey the store laws, so truncation absorbs. |
| ChatBuffer.InsertedIsNormal | common/src/chat.rs:168-192 | One insertion on a capped, well-keyed buffer, which cuts back only the author concerned, yields the slot winners under the full nested truncation. |
| ChatBuffer.InsertedIsBuffer | common/src/chat.rs:168-192 | An insertion keeps the keys right and both caps respected. |
| ChatBuffer.BufferIsNormal | common/src/chat.rs:168-192 | Every well-keyed buffer within both caps is its own normal form. |
| ChatBuffer.SameMessagesSameBuffer | common/src/chat.rs:142-144 | A well-keyed buffer and its set of messages determine each other. |
| Chat.ChatState.InsertBounded | common/src/chat.rs:168-192 | Slot resolution and the two evictions compute the truncated map for any starting map, and the normal form of old messages plus the new one on a capped buffer. |
| Chat.ChatState.EvictAuthor | common/src/chat.rs:180-188 | The first loop cuts the one author back to its newest ids and touches no other message. |
| Chat.ChatState.EvictOldest | common/src/chat.rs:189-191 | The second loop keeps the newest ids up to the cap. |
| Chat.ChatState.Insert | common/src/chat.rs:160-162 | The same under the caps 500 and 32. |
| Chat.ChatState.MergeBounded | common/src/chat.rs:199-203 | Merging leaves the normal form of both message sets, whatever keys and sizes the other state has. |
| Chat.ChatState.Merge | common/src/chat.rs:195-197 | The same under the caps 500 and 32. |
| Chat.ChatState.Summarize | common/src/chat.rs:207-213 | Each author's watermark is the greatest (ts, seq) it has in the buffer, and no other author occurs. |
| Chat.ChatState.Delta | common/src/chat.rs:218-235 | For every buffer and summary: exactly the messages whose author the summary lacks, or whose ts is above its watermark, or whose ts equals it and seq is above; None if and only if there are none. |
| Chat.ChatState.ApplyDelta | common/src/chat.rs:238-242 | Applying a delta leaves the normal form of buffer plus delta. |
| Chat.ChatState.ValidMessages | common/src/chat.rs:248-264 | The loop computes the rate-limited display list; its u64 subtraction never underflows because ids ascend by time. |
| ChatLaws.BuiltIsNormal | common/src/chat.rs:164-192 | After any sequence of messages, in any order and with repeats, the buffer is the slot winners under newest k per author, then newest N, of the set inserted. |
| ChatLaws.HeldExact | common/src/chat.rs:133-192 | On the fields: a message inserted is held if and only if no other of its id has a greater (signature, content), fewer than k ids of its author are later by (ts, seq), and fewer than N ids that pass that test are later by (ts, author, seq). |
| ChatLaws.ArrivalOrderIrrelevant | common/src/chat.rs:164-167 | Sequences with the same messages build the same buffer. |
| ChatLaws.MergeCommutes | common/src/chat.rs:194-203 | Merge commutes on capped buffers. |
| ChatLaws.MergeAssociates | common/src/chat.rs:194-203 | Merge associates on capped buffers. |
| ChatLaws.MergeIdempotentUnit | common/src/chat.rs:194-203 | Merge is idempotent with the empty buffer as unit on both sides. |
| ChatLaws.MergeIsUnion | common/src/chat.rs:194-203 | Merging two built buffers is building from both sequences. |
| ChatLaws.OwnDeltaEmpty | common/src/chat.rs:215-235 | The delta against a state's own summary is None, whatever its keys. |
| ChatLaws.FreshPeerRebuilds | common/src/chat.rs:215-235 | From an empty summary the receiver rebuilds the buffer exactly. |
| ChatLaws.DeltaExact | common/src/chat.rs:218-242 | Delta sync equals the full merge if and only if every message of the merged buffer is already held or beyond its watermark. |
| ChatLaws.WatermarkSync | common/src/chat.rs:207-242 | If everything the sender holds and the receiver lacks has an author without watermark, or a ts, or an equal ts and a seq, above it, summary plus delta equals the full merge. |
| ChatLaws.OlderMessageNotSent | common/src/chat.rs:218-235 | The condition is needed: an older message behind the watermark is not sent, and the sync differs from the merge. |
| ChatLaws.FloodBound | common/src/chat.rs:180-191 | Any messages by one author remove at most k messages of other authors from the buffer. |
| ChatLaws.OthersUntouched | common/src/chat.rs:168-192 | Messages of others that stay through a flood are the ones that were there. |
| ChatLaws.EveryAuthorKept | common/src/chat.rs:180-191 | If distinct authors times k is at most N, every author keeps exactly its own k newest ids. |
| ChatLaws.ChosenIsGreedy | common/src/chat.rs:248-264 | The interleaved filter over all ids is, author by author, the greedy filter over that author's own ids. |
| ChatLaws.RateLimit | common/src/chat.rs:244-264 | Shown messages of an author are at least 3 s apart, each hidden one is within 3 s of an earlier shown one, and no other spaced selection is larger. |
| ChatLaws.ShownInOrder | common/src/chat.rs:244-264 | The display lists stored messages in ascending (ts, author, seq). |
| Filter.GreedySpaced | common/src/tile.rs:295-304 | Greedy acceptance over time-ordered entries keeps accepted entries apart. |
| Filter.GreedyRejects | common/src/tile.rs:295-304 | Every rejected entry lies below the bar of an earlier accepted one. |
| Filter.GreedyOptimal | common/src/tile.rs:295-304 | No spaced selection of the entries is larger than the greedy one. |
| Filter.GreedyWider | web/src/state.ts:150-155 | Under a wider bar the filter accepts the same wherever what it accepted under the narrower one reaches the wider. |
| Filter.CutoffCommutes | web/src/state.ts:132-153 | Cutting time-ordered entries and then filtering is filtering and then cutting. |
| TileLog.LayerLawful | common/src/tile.rs:149-166 | Newest-cap-per-author with slot_winner obeys the store laws. |
| TileLog.PutIsNormal | common/src/tile.rs:152-166 | Inserting into one author's log computes the layer's normal form of all logs plus the placement, and displaces exactly its rest. |
| TileLog.InsertIsJoin | common/src/tile.rs:178-189 | A truncated live log together with a baked layer offered the displaced placements is the two-layer join with the inserted placement. |
| TileLog.BakeIsJoin | common/src/tile.rs:195-198 | Baking one placement is the join with a pair holding it in the baked layer only. |
| TileLog.LogsAreNormal | common/src/tile.rs:128-138 | Well-keyed logs within the cap are settled, whatever their timestamps. |
| TileLog.SameViewSameTile | common/src/tile.rs:128-138 | Well-keyed tiles holding the same placements in the same layers are equal maps. |
| Tile.LogInsert | common/src/tile.rs:152-166 | The loop returns the newest cap entries after slot resolution and exactly the entries the cap displaced, each once. |
| Tile.TileState.InsertBounded | common/src/tile.rs:178-189 | Inserting is the join with the placement on every regular tile, overlapping layers included. |
| Tile.TileState.BakeBounded | common/src/tile.rs:195-198 | Baking puts the placement into its own author's baked log under the cap and touches nothing else. |
| Tile.TileState.Insert | common/src/tile.rs:172-174 | Inserting under the caps 8 and 65536. |
| Tile.TileState.MergeBounded | common/src/tile.rs:208-219 | The nested merge loops compute the join with all placements of the other state, mis-keyed or over the caps as it may be. |
| Tile.TileState.Merge | common/src/tile.rs:204-206 | The same under the caps 8 and 65536. |
| Tile.TileState.ApplyDelta | common/src/tile.rs:261-265 | Applying a delta is the join with its placements as insertions. |
| Tile.TileState.Summarize | common/src/tile.rs:225-234 | Each watermark is the greatest time key over both layers, and every author with an entry has one. |
| Tile.TileState.Delta | common/src/tile.rs:241-258 | The delta is exactly the placements of both layers whose author key the summary lacks or whose own ts is above the watermark, and None if and only if there are none. |
| Tile.ApplyCooldown | common/src/tile.rs:281-305 | The acceptance loop over baked then live entries sorted by time, with saturating addition, computes the greedy filter. |
| Tile.TileState.ValidPlacements | common/src/tile.rs:274-307 | The loop over authors concatenates every admitted author's accepted placements. |
| Tile.TileState.DeriveCanvas | common/src/tile.rs:312-339 | Each pixel shows the colour of a valid placement there that no other valid one is later than, by ts, then author, then signature (the first in order if two tie), and the empty sentinel where there is none. |
| TileLaws.MergeSemilattice | common/src/tile.rs:200-219 | Merge is commutative, associative and idempotent with the empty tile as unit on every well-keyed capped tile with non-empty logs, even when layers overlap in time. |
| TileLaws.DeltaIsJoin | common/src/tile.rs:261-265 | Inserting a delta equals joining with the tile built from it alone, and merging built tiles equals building from the union. |
| TileLaws.NormalForm | common/src/tile.rs:128-198 | After any insertions a placement is live if and only if it wins its slot and ranks below K among its author's times, and baked if and only if it wins and ranks in [K, K + M). |
| TileLaws.BakedBelowLive | common/src/tile.rs:221-224 | Every baked time lies below every live time of its author, and an author with baked entries has a full live log. |
| TileLaws.ContentsAreOneLog | common/src/tile.rs:128-198 | Both layers together hold what a single log of cap K + M would hold. |
| TileLaws.FromSurvivors | common/src/tile.rs:128-198 | What the two caps drop from a history never matters: its survivors build the same tile. |
| TileLaws.ReachableShape | common/src/tile.rs:221-224 | A settled tile is reachable by insertions if and only if its baked entries are older than, and only occur beside, full live logs. |
| TileLaws.FromIsReachable | common/src/tile.rs:128-198 | Every tile built by insertions is the tile built from its own contents. |
| TileLaws.DeltaExact | common/src/tile.rs:241-265 | On reachable tiles a delta equals the full merge if and only if it and the receiver together hold the contents of the merged tile. |
| TileLaws.DeltaExactAnywhere | common/src/tile.rs:208-265 | On any two tiles, whatever their shape, a delta equals the full merge if and only if neither makes anything survive in a layer that the other does not offer to that layer. |
| TileLaws.SentIsMissing | common/src/tile.rs:241-258 | On well-keyed tiles the placements the delta collects are those of both layers beyond the watermarks. |
| TileLaws.WatermarkSync | common/src/tile.rs:225-265 | If everything the sender holds and the receiver lacks has an author without watermark or a ts above it, summary plus delta equals the full merge, on reachable tiles. |
| TileLaws.FreshPeerRebuilds | common/src/tile.rs:236-240 | From an empty summary the receiver rebuilds a settled tile, baked layer included, if and only if its baked entries are older than, and only occur beside, full live logs. |
| TileLaws.BakedAloneNotRebuilt | common/src/tile.rs:236-240 | The input where it is not rebuilt: any placement baked beside no live log is within the caps, and a fresh peer does not arrive at it. |
| TileLaws.OwnDeltaExact | common/src/tile.rs:221-258 | For all maps, whatever their keys: the delta against the own summary is None if and only if every placement's own time is at most some time key filed under its author key, in either layer. |
| TileLaws.OwnDeltaEmpty | common/src/tile.rs:236-240 | So it is None on well-keyed tiles of any shape. |
| TileLaws.MisKeyedDeltaNotEmpty | common/src/tile.rs:221-224 | The input where it is not None: one placement alone under a time key smaller than its own time. |
| TileLaws.CoveredMisKeyed | common/src/tile.rs:221-224 | The same placement beside a later key of its author is not sent. |
| TileLaws.OlderPlacementNotSent | common/src/tile.rs:241-258 | An older placement behind the watermark is not sent, and the sync differs from the merge. |
| CanvasLaws.CooldownOptimal | common/src/tile.rs:267-307 | For all stored times: accepted placements of one author are stored, every rejected one is within the cooldown of an earlier accepted one, and no spaced selection is larger; they are a cooldown apart if and only if the end of time fits. |
| CanvasLaws.AcceptedSplit | common/src/tile.rs:295-304 | What is accepted is what the history below the greatest u64 has accepted, followed by everything stored at it. |
| CanvasLaws.SpacingExact | common/src/tile.rs:296-299 | The spacing holds if and only if the greatest u64 is in neither log, or in one only with nothing accepted of the history below it within the cooldown of it. |
| CanvasLaws.SaturationBreaksSpacing | common/src/tile.rs:296-299 | Near the greatest u64 two placements one second apart are both accepted under a cooldown of two: too close, and more than 1 + span / cooldown. |
| CanvasLaws.CooldownMaximal | common/src/tile.rs:295-304 | No selection of stored placements a cooldown apart is larger than what is accepted, for all stored times. |
| CanvasLaws.CooldownCountExact | common/src/tile.rs:296-303 | The oldest stored placement is accepted first, and at most 1 + (max ts - min ts) / cooldown placements are accepted if and only if nothing is stored at the greatest u64 or (accepted below it + stored at it - 1) * cooldown fits between the oldest and it. |
| CanvasLaws.CooldownCount | common/src/tile.rs:296-303 | So the bound holds wherever the spacing does: where the end of time fits. |
| CanvasLaws.ValidIsAccepted | common/src/tile.rs:274-307 | A placement is valid if and only if its author has a tier and the author's own cooldown, 20 s or 2 s, accepts it. |
| CanvasLaws.ChainExact | common/src/tile.rs:285-293 | The chain the cooldown walks is in time order and lists of every time the baked entry and then the live one. |
| CanvasLaws.SameTime | common/src/tile.rs:295-304 | Two valid placements of one author at one time are the same, or are its two placements at the greatest u64, one in each layer. |
| CanvasLaws.OnePerTimeExact | common/src/tile.rs:295-304 | This holds for all valid placements if and only if no admitted author has two different placements at the greatest u64, one in each layer. |
| CanvasLaws.CanvasExact | common/src/tile.rs:309-339 | On every well-keyed tile, stated on the fields: a pixel with valid placements shows the colour of one than which every other there is older, or as old by a smaller author, or by the same author with a signature not greater; of every such one unless one author holds two at the greatest u64; and it is the empty sentinel if and only if nothing valid is there or the winner has that colour. |
| CanvasLaws.SameContentsSameValid | common/src/tile.rs:274-307 | Tiles with the same contents, however split over the layers, have the same valid placements in the same order. |
| CanvasLaws.WithinCapsNothingLost | common/src/tile.rs:178-198 | While no author exceeds K + M distinct times, the valid placements are those of a tile whose caps are never reached. |
| WindowLaws.WindowAgrees | common/src/tile.rs:267-307 | Beyond K + M times: against any larger caps the longer history accepts, of an author, some placements older than all kept and then some of the kept ones; the kept ones alone accept as many of them or one more, the same from the first one both accept, and exactly the same if and only if the longer history accepts the oldest kept. |
| WindowLaws.LosingRevives | common/src/tile.rs:267-271 | A history where losing the older of two placements to the cap makes the newer, rejected before, valid. |
| Filter.GreedyOneMore | common/src/tile.rs:296-303 | Starting the greedy filter later costs at most one accepted entry, if every entry raises the bar to the later start or past it. |
| Filter.GreedyRejoins | common/src/tile.rs:296-303 | Two greedy selections from one sequence are the same from any entry both accept. |
| Replication.NextFaithful | common/src/tile.rs:204-265 | One step (local insert, send state, send delta, deliver) keeps every peer and every message equal to the normal form of what it stands for. |
| Replication.EveryRunFaithful | common/src/tile.rs:204-265 | In every run, with delay, loss, duplication and reordering, each peer's state is the normal form of what it has transitively received. |
| Replication.Converges | common/src/tile.rs:200-219 | Equal received sets give equal states; a peer that received everything holds the normal form of everything. |
| Replication.TileConverges | common/src/tile.rs:172-265 | Strong eventual consistency for tile peers mixing full states and deltas. |
| Replication.TileCanvasesConverge | common/src/tile.rs:204-339 | Peers with equal received sets store equal tiles and show equal pixels, whatever mix of states and deltas brought them there. |
| Replication.ChatConverges | common/src/chat.rs:157-242 | Strong eventual consistency for chat peers under both caps. |
| Replication.ChatBuffersConverge | common/src/chat.rs:157-242 | Chat peers with equal received sets store equal buffers and show equal rate-limited lists, whatever mix of states and deltas brought them there. |
| Bytes.BytesOrder | web/src/state.ts:38-44 | Byte strings are strictly totally ordered. |
| Bytes.CompareBytes | web/src/state.ts:38-44 | The sign of the loop's result is the lexicographic byte order, and zero only on equality. |
| Bytes.BytesLessExact | web/src/state.ts:38-44 | The order is: smaller at the first difference, or a proper prefix. |
| Bytes.StringLessExact | web/src/state.ts:246-251 | The same for strings by code unit. |
| Bytes.LittleEndian | common/src/registry.rs:162-184 | The little-endian bytes of 2, 4 or 8 byte integers, least significant first, add up to the number. |
| Bytes.BigEndian | common/src/facade.rs:108-117 | The big-endian bytes, most significant first, add up to the number. |
| TextKeys.PaddedIsFixed | web/src/state.ts:246-251 | Printing and zero-padding a number that fits is printing it in fixed width. |
| TextKeys.FixedOrder | web/src/state.ts:246-251 | Fixed-width numerals are ordered like their numbers and determine them. |
| TextKeys.HexOrder | web/src/state.ts:34-36 | Hex strings of equal length are ordered like their bytes and determine them. |
| TextKeys.HexDigits | web/src/state.ts:34-36 | Byte i is the digits 2i and 2i + 1, lower-case, the high half first. |
| TextKeys.KeyOrder | web/src/state.ts:246-251 | For ts up to 2^53 - 1, string order on message keys is exactly ts, then author bytes, then seq, and the key determines the id. |
| TextKeys.KeyAuthor | web/src/state.ts:266-283 | Splitting a key at its colons recovers the author's hex. |
| ChatMirror.MessageSlotBeats | web/src/state.ts:254-260 | Slot resolution agrees with the contract's slot_beats. |
| ChatMirror.ChatStateJs.Insert | web/src/state.ts:266-283 | On a keyed store of safe messages, inserting under string keys is the contract's insertion, step by step. |
| ChatMirror.ChatStateJs.EvictAuthor | web/src/state.ts:273-277 | Author eviction deletes the head of the author's sorted string keys. |
| ChatMirror.ChatStateJs.TrimToCap | web/src/state.ts:278-282 | The global eviction keeps the newest keys up to the cap. |
| ChatMirror.ChatStateJs.ApplyDelta | web/src/state.ts:285-287 | Applying a delta of safe messages is the contract's sequence of insertions. |
| ChatMirror.ChatStateJs.ValidMessages | web/src/state.ts:290-303 | The rate-limited display list equals the contract's, in the same order. |
| ChatMirror.SortedMirror | web/src/state.ts:290-303 | Sorting the string keys enumerates the contract's ids in order. |
| TileMirror.PlacementSlotWinner | web/src/state.ts:69-72 | Slot resolution agrees with the contract's slot_winner. |
| TileMirror.LwwGreater | web/src/state.ts:75-78 | True exactly for a greater ts, or equal ts and greater author bytes, or both equal and greater signature bytes. |
| TileMirror.LogInsert | web/src/state.ts:89-99 | The client's log insertion keeps and displaces exactly what the contract's does. |
| TileMirror.TileStateJs.Insert | web/src/state.ts:101-111 | Inserting is the contract's two-layer join. |
| TileMirror.TileStateJs.Bake | web/src/state.ts:113-122 | Baking puts the placement into its author's baked log under the cap. |
| TileMirror.TileStateJs.ApplyDelta | web/src/state.ts:124-126 | Applying a delta is the contract's join with its placements. |
| TileMirror.ApplyCooldown | web/src/state.ts:142-156 | Cutting, sorting and accepting computes the greedy filter over the entries up to the cutoff. |
| TileMirror.TileStateJs.ValidPlacements | web/src/state.ts:135-159 | The filter concatenates the admitted authors' accepted placements in hex order. |
| TileMirror.TileStateJs.DeriveWinners | web/src/state.ts:162-171 | The map holds, per coordinate, the valid placement that no other there is later than, by ts, author, signature, the first if two tie, and nothing elsewhere. |
| TileMirror.CanvasFromWinners | web/src/state.ts:181-187 | Each pixel has its winner's colour, the others the empty sentinel. |
| TileMirror.TileStateJs.DeriveCanvas | web/src/state.ts:175-177 | Each pixel follows the same rule over the client's valid placements. |
| TileMirror.MergeTileInto | web/src/backend.ts:239-246 | Folding in a decoded state is the contract's join, baked layer included. |
| TileMirrorLaws.ReplayCommutes | web/src/state.ts:128-159 | The replay view at a cutoff is the live view cut there. |
| TileMirrorLaws.ReplayGrows | web/src/state.ts:132-171 | As the cutoff grows valid placements only come; each coordinate's winner gives way only to a later one, and its ts never falls. |
| TileMirrorLaws.ReplayReproduces | web/src/state.ts:132-171 | A cutoff at or past the newest valid placement reproduces the live board. |
| TileFilter.PixelUnique | common/src/tile.rs:312-339 | The valid placements in order determine every pixel. |
| TileFilter.WinnersUnique | common/src/tile.rs:313-333 | The valid placements in order determine the winners, and each winner is one that no other at its coordinate is later than, in the fields. |
| TileMirrorLaws.SameAccepted | web/src/state.ts:152-155 | As exact integers: plain subtraction never accepts more than the saturating addition, and accepts the same if and only if the end of time fits. |
| TileMirrorLaws.ClientAgrees | web/src/state.ts:1-7 | As exact integers: a client store and a contract state with the same placements have the same valid placements in the same order if and only if the end of time fits for every admitted author; then their winners and pixels are equal. |
| TileMirrorLaws.SafeClientAgrees | web/src/state.ts:1-7 | Where all times are safe integers, the only ones a client holds, they have the same valid placements, winners and pixels without further condition. |
| CanvasRuns.DecodedClientAgrees | web/src/state.ts:1-7 | So a client that decoded a tile and inserted a decoded delta, whatever the bytes, agrees with a core holding the same placements. |
| CanvasRuns.SoundIsClear | contracts/tile-contract/src/lib.rs:55-99 | What passes the structure check stores no time more than 300 s ahead and no colour from 255 up. |
| CanvasRuns.SoundFitsAll | contracts/tile-contract/src/lib.rs:55-99 | So the end of time fits for every author and every tier lookup. |
| CanvasRuns.EveryStateCooldown | common/src/tile.rs:267-307 | In every state of every contract run, for every author: accepted placements are stored, a cooldown apart and at most 1 + span / cooldown, rejected ones are within the cooldown of an accepted one, and no spaced selection is larger. |
| CanvasRuns.EveryStateCanvas | common/src/tile.rs:309-339 | In every state of every contract run a pixel has the colour of the unique latest valid placement there, by ts, then author, then signature, and is 255 if and only if there is none. |
| CanvasRuns.EveryStateClientAgrees | web/src/state.ts:1-7 | In every state of every contract run a client holding the same placements has the same valid placements, winners and pixels. |
| Cbor.WriteHead | web/src/cbor.ts:36-54 | Appends the shortest head, or fails exactly beyond the safe integers. |
| Cbor.WriteValue | web/src/cbor.ts:56-94 | Appends the encoding of the value, or fails exactly on values that are not encodable. |
| Cbor.CborEncode | web/src/cbor.ts:30-34 | Succeeds exactly on encodable values, with their encoding. |
| Cbor.Reader.Length | web/src/cbor.ts:114-131 | Reads an argument of 0, 1, 2, 4 or 8 bytes, refusing unsafe 64-bit values, and advances exactly past it. |
| Cbor.Reader.Take | web/src/cbor.ts:107-112 | Reads n bytes if they are there and advances past them. |
| Cbor.Parse | web/src/cbor.ts:141-177 | Every parsed item consumes at least one byte, on every input; this is why decoding terminates. |
| Cbor.ReadValue | web/src/cbor.ts:141-177 | The position-advancing reader agrees with the parser on the value and on what is left. |
| Cbor.CborDecode | web/src/cbor.ts:134-139 | Decodes one item and refuses trailing bytes. |
| CborLaws.HeadRoundTrip | web/src/cbor.ts:36-54 | A head followed by anything reads back its major type and argument and leaves the rest. |
| CborLaws.HeadLayout | web/src/cbor.ts:36-54 | The head of RFC 8949: major type in three bits, the argument in five, or in 1, 2, 4 or 8 bytes announced by 24 to 27, most significant first, in the shortest of these. |
| CborLaws.EncodingStarts | web/src/cbor.ts:56-94 | The major types 0 to 5 by kind of value, and 0xf4, 0xf5, 0xf6 for false, true, null. |
| CborLaws.ShortestHead | web/src/cbor.ts:36-54 | Any readable argument encoding is at least as long as the head written for the same argument. |
| CborLaws.RoundTrip | web/src/cbor.ts:30-177 | Decoding the encoding of any value followed by any suffix returns the value and leaves the suffix. |
| CborLaws.DecodeInverts | web/src/cbor.ts:30-139 | cborDecode inverts cborEncode. |
| CborLaws.DecodeBounded | web/src/cbor.ts:114-131 | Every number in whatever decodes is within the safe integers, negative ones down to -2^53. |
| CborLaws.PrefixFree | web/src/cbor.ts:56-94 | Two encodings followed by anything are never confused. |
| WireFields.ByteListBack | web/src/identity.ts:179-185 | A byte string encoded as an array of numbers reads back as itself. |
| WireFields.DecodeAllExact | web/src/state.ts:217-222 | A list decodes if and only if every element does, to the elements in order. |
| WireFields.MapIsDistinct | web/src/cbor.ts:164-172 | The Map built from decoded entries holds no primitive key twice, and each under the value set last. |
| WireFields.DistinctMap | web/src/cbor.ts:164-172 | Entries without a repeated primitive key are all kept, in order. |
| TileWire.PlacementBack | web/src/merge.ts:132-140 | A placement decodes from its own encoding. |
| TileWire.PlacementByName | web/src/merge.ts:132-140 | A written placement holds coord, color, ts and author (a byte string) and signature (an array) under these names. |
| TileWire.EncodeLogs | web/src/merge.ts:142-156 | The nested loops produce logs in author and time order, dropping empty logs. |
| TileWire.EncodeTileState | web/src/merge.ts:158-163 | Writes the encoding of both layers, the baked one only when it is not empty. |
| TileWire.LogsBack | web/src/merge.ts:142-156 | Encoded logs decode to exactly their placements. |
| TileWire.TileBack | web/src/state.ts:189-214 | An encoded tile offers exactly its own two layers when read back. |
| TileWire.TileByName | web/src/merge.ts:158-163 | A written tile holds its layers under placements and baked, the latter only if there is one. |
| TileWire.ReadFamily | web/src/state.ts:195-212 | The decode loop joins the placements of a family into its layer, and fails exactly where one does not decode. |
| TileWire.DecodeTileState | web/src/state.ts:191-214 | Decoding yields a regular store holding the join of what the bytes offer, with safe times only, and fails exactly where the bytes do not decode. |
| TileWire.DecodedStateIsSafe | web/src/state.ts:191-214 | Whatever bytes decode as a tile, every time they offer is a safe integer. |
| TileWire.DecodeTileDelta | web/src/state.ts:217-222 | Decoding lists placements of safe times only, whatever the bytes, and of an encoded delta exactly its placements in order. |
| TileWire.StateBack | web/src/state.ts:189-214 | Encoding and decoding a regular tile returns its layers. |
| TileWire.DeltaBack | web/src/state.ts:217-222 | Encoding and decoding a delta returns its placements. |
| TileWire.MergeTileState | web/src/merge.ts:165-169 | The bytes written encode the join of the decoded state with the decoded delta; it fails exactly where decoding or encoding does. |
| TileWire.MergedBytesAreTheJoin | web/src/merge.ts:165-169 | On the bytes of a regular tile and of a delta, the bytes written are the one encoding of the contract's result. |
| TileWire.SafeTileEncodable | web/src/merge.ts:158-163 | The encoder never refuses a regular tile whose times are safe integers. |
| ChatWire.MessageBack | web/src/merge.ts:175-183 | A safe message decodes from its own encoding. |
| ChatWire.MessageByName | web/src/merge.ts:175-183 | A written message holds content, ts, seq, author and signature under these names. |
| ChatWire.EncodeChatState | web/src/merge.ts:185-197 | Writes the messages in key order under (ts, author, seq) ids. |
| ChatWire.DecodeChatState | web/src/state.ts:307-316 | Decoding builds the buffer of the listed messages, and fails exactly where one does not decode. |
| ChatWire.StateBack | web/src/state.ts:307-316 | Decoding an encoded room lists exactly its messages in key order. |
| ChatWire.RoomBack | web/src/state.ts:307-316 | A capped room decoded from its own bytes is the room. |
| ChatWire.MergeChatState | web/src/merge.ts:199-203 | The bytes written encode the decoded state with the decoded delta inserted. |
| ChatWire.MergesLikeTheContract | web/src/merge.ts:199-203 | On the bytes of a capped room the merge is the contract's delta application, within both caps. |
| ChatWire.OneEncoding | web/src/merge.ts:185-197 | Stores that stand for the same buffer are equal, so one room has one encoding. |
| Fallback.Lattice.GetMergePut | web/src/backend.ts:179-213 | If the network state grew by joins between GET and PUT, merging the PUT of (s plus delta) gives exactly the grown state plus the delta, and again when repeated. |
| Fallback.Channel.UpdateWithDelta | web/src/backend.ts:187-188 | Succeeds if and only if the call takes effect and its reply arrives; the delta is added once if it takes effect, even if failure is reported, and not otherwise; others' writes pass through. |
| Fallback.Channel.GetState | web/src/backend.ts:189-203 | Returns a state if and only if the reply arrives: one the network has absorbed, possibly a stale one. |
| Fallback.Channel.PutState | web/src/backend.ts:204-208 | A PUT of (absorbed state plus delta) adds the delta and nothing else if it takes effect, and nothing otherwise; it succeeds if and only if it takes effect and its reply arrives. |
| Fallback.DoPut | web/src/backend.ts:189-219 | Succeeds if and only if the GET answers and the PUT succeeds; the delta is in if the PUT takes effect and not otherwise; the container is cached by the first GET that answers, and exactly success marks the key for PUT first. |
| Fallback.UpdateOrPut | web/src/backend.ts:179-232 | The exact outcome of every script of failures. It succeeds if and only if UPDATE does, or GET and PUT do; for a key marked PUT-first, GET and PUT, or the UPDATE after them. On success the network holds everything others wrote plus the delta; on failure the delta is in exactly if one of the writes took effect; the key is marked exactly by a PUT that succeeds after a failed UPDATE. |
| Fallback.Redeliver | web/src/backend.ts:168-178 | Any number of repeated deliveries, failing or not, has the effect of one, and succeeds if the first does. |
| Fallback.TileLatticeLawful | common/src/tile.rs:200-265 | Settled tiles form a lattice in which applying a delta is joining with the tile built from it. |
| Fallback.TileGetMergePut | web/src/merge.ts:165-169 | The fallback law for any settled tiles. |
| Fallback.ChatLatticeLawful | common/src/chat.rs:194-242 | The same for capped chat buffers. |
| TileContract.VerifyPlacement | contracts/tile-contract/src/lib.rs:55-65 | Accepts exactly placements with a colour below 255, the author's signature over the preimage of canvas, tile x, tile y, registry, author, coord, color and ts, and a ts at most 300 s ahead; the addition cannot overflow. |
| TileContract.SignedForOneTile | common/src/tile.rs:53-72 | Two placements have the same preimage if and only if canvas, tile, registry, author, coord, color and ts agree: what is signed for one tile is signed for no other. |
| TileContract.VerifyStateStructure | contracts/tile-contract/src/lib.rs:70-99 | Accepts exactly states with non-empty, capped, well-keyed logs of verified placements in both layers. |
| TileContract.ValidateState | contracts/tile-contract/src/lib.rs:116-147 | Valid, Invalid and RequestRelated each exactly when the structure, the live layer and the registry lookup say so. |
| TileContract.MergeState | contracts/tile-contract/src/lib.rs:149-166 | Accepts exactly decodable states of verified placements, mis-keyed or over the caps as they may be, and then joins them. |
| TileContract.ApplyDelta | contracts/tile-contract/src/lib.rs:168-180 | Accepts exactly decodable deltas of verified placements and then joins them. |
| TileContract.UpdateState | contracts/tile-contract/src/lib.rs:182-212 | Accepts an update if and only if every payload decodes and every placement in it verifies; the result is the join of the state with everything offered. |
| TileContract.UpdateKeepsSound | contracts/tile-contract/src/lib.rs:149-212 | One call keeps a state passing the structure check, whatever the incoming states look like. |
| TileContract.EveryStateSound | contracts/tile-contract/src/lib.rs:70-212 | From genesis, with a clock that never goes back, every state of every run passes the structure check and is the join of all accepted offers. |
| TileContract.EveryStateAuthentic | contracts/tile-contract/src/lib.rs:55-99 | So in every state of every run each author's logs hold 1 to 8 live and 1 to 65536 baked placements, if any, each under its own author and ts, coloured below 255, signed for this tile and at most 300 s ahead. |
| TileContract.SameOffersSameTile | contracts/tile-contract/src/lib.rs:182-212 | Runs that accepted the same offers, in any order and batching, store the same tile. |
| TileContract.ValidAdmitsExact | contracts/tile-contract/src/lib.rs:101-147 | Valid means that every author is admitted, whatever registry is fetched, if and only if the tile holds a live placement or nothing at all. |
| TileContract.BakedAloneIsStored | contracts/tile-contract/src/lib.rs:116-212 | One accepted update of a crafted state stores a tile whose only placement is baked, and that tile is Valid against a registry that admits nobody. |
| ChatContract.VerifyMessage | contracts/chat-contract/src/lib.rs:58-68 | Accepts exactly messages of 1 to 512 bytes with the author's signature over the preimage of canvas, registry, author, ts, seq and content, and a ts at most 300 s ahead. |
| ChatContract.SignedForOneRoom | common/src/chat.rs:64-84 | Two messages of less than 2^32 bytes have the same preimage if and only if canvas, registry, author, ts, seq and content agree. |
| ChatContract.CapStep | contracts/chat-contract/src/lib.rs:79-90 | The running counter passes the cap exactly when the ids seen so far do. |
| ChatContract.VerifyStateStructure | contracts/chat-contract/src/lib.rs:73-94 | Accepts exactly well-keyed buffers within both caps whose messages verify. |
| ChatContract.ValidateState | contracts/chat-contract/src/lib.rs:111-142 | Valid, Invalid and RequestRelated each exactly when the structure, emptiness and the registry lookup say so. |
| ChatContract.MergeState | contracts/chat-contract/src/lib.rs:144-158 | Accepts exactly decodable states of verified messages and truncates the union. |
| ChatContract.ApplyDelta | contracts/chat-contract/src/lib.rs:160-172 | Accepts exactly decodable deltas of verified messages and truncates the union. |
| ChatContract.UpdateState | contracts/chat-contract/src/lib.rs:174-204 | Accepts an update if and only if every payload decodes and every message verifies; the result truncates everything held and offered. |
| ChatContract.UpdateKeepsSound | contracts/chat-contract/src/lib.rs:144-204 | One call keeps a room passing the structure check. |
| ChatContract.EveryStateSound | contracts/chat-contract/src/lib.rs:73-204 | From genesis, with a clock that never goes back, every state of every run passes the structure check and truncates all accepted messages. |
| ChatContract.EveryStateAuthentic | contracts/chat-contract/src/lib.rs:73-107 | So in every state of every run the room holds at most 500 messages and 32 of any author, each under its own id, of 1 to 512 bytes, signed for this room and at most 300 s ahead. |
| ChatContract.SameOffersSameRoom | contracts/chat-contract/src/lib.rs:174-204 | Runs that accepted the same messages, in any order and batching, store the same room. |
| Host.CheckRegistryMembership | contracts/tile-contract/src/lib.rs:102-114 | Succeeds exactly when the registry decodes and admits every author listed. |
| Registry.RegistryState.InsertRecord | common/src/registry.rs:368-384 | Only the record's identity changes; there the core of the earlier (ts, then smaller signature) and the nickname of the higher (version, then greater signature) remain, each on its own. Whatever history a state holds the least cores and highest nicknames of, it then holds those of the history with the record added. |
| Registry.RegistryState.ApplyNickname | common/src/registry.rs:389-394 | A rename of an admitted identity joins the history of nicknames of which the state holds the highest; of any other it changes nothing. |
| Registry.RegistryState.Merge | common/src/registry.rs:403-407 | The loop over the other state's records leaves, where that state is well-keyed, per shared identity the earlier core and the higher nickname and every other record as it was, and so holds the least cores and highest nicknames of both histories. |
| Registry.RegistryState.Summarize | common/src/registry.rs:409-418 | The summary of a history: exactly the admitted identities, each with its highest nickname version and 0 for none. |
| Registry.RegistryState.Delta | common/src/registry.rs:422-448 | Carries exactly the absent admissions and the nicknames of higher version, and is None if and only if there are neither. |
| Registry.RegistryState.ApplyDelta | common/src/registry.rs:450-459 | The result represents the history with the admissions and with the nicknames whose identity is then admitted; a nickname of an admitted identity always lands, one riding with its admission included: the stored one is not below it. |
| RegistryLaws.DeltaRepresents | common/src/registry.rs:450-459 | So the least core and the highest nickname survive a delta, and a nickname whose identity is in neither registry nor delta adds nothing. |
| RegistryLaws.MergeIsJoin | common/src/registry.rs:403-407 | Inserting a well-keyed state's records in any order is the pointwise join. |
| RegistryLaws.ResolveCommutes | common/src/registry.rs:318-336 | Resolving two records commutes if and only if ties in the core key and in the nickname key carry equal content. |
| RegistryLaws.MergeSemilattice | common/src/registry.rs:402-407 | Merge commutes if and only if ties are coherent; it always associates, absorbs repetition and has the empty registry as unit. |
| RegistryLaws.TieKeepsOwn | common/src/registry.rs:402-407 | Two admissions of one identity tied in time and signature with different proofs do not commute: each side keeps its own. |
| RegistryLaws.JoinRepresents | common/src/registry.rs:366-407 | A merge holds the least core and the highest nickname of both histories, each on its own. |
| RegistryLaws.EveryPastRepresents | common/src/registry.rs:366-407 | After any admissions, renames and merges no core of the history has a smaller ts, or the same ts and a smaller signature, than the one held, and no nickname a higher version, or the same version and a greater signature. |
| RegistryLaws.Converges | common/src/registry.rs:366-407 | Replicas with the same coherent history are equal. |
| RegistryLaws.EarlyRenameIsLost | common/src/registry.rs:386-394 | A rename before its admission is lost; after it, it is kept. |
| RegistryLaws.DeltaExact | common/src/registry.rs:409-459 | A delta equals the full merge if and only if, for every shared identity, the sender's core is not smaller and its nickname is not ahead by signature alone. |
| RegistryLaws.DeltaRebuilds | common/src/registry.rs:409-459 | A registry is rebuilt from a part of it with equal cores whose nicknames are its own or of lower version. |
| RegistryList.Spliced | web/src/merge.ts:80-87 | Splicing a new record in at the scan position keeps the keys strictly ascending and lists the map with the record added. |
| RegistryList.Replaced | web/src/merge.ts:88-92 | Replacing the record at a position lists the map with that identity replaced. |
| RegistryList.OneListing | web/src/merge.ts:95-126 | A map has only one strictly ascending listing. |
| RegistryWire.RecordReads | web/src/merge.ts:52-62 | A record the contract wrote holds its identity, ts, signature, nickname and proof under these names, and the generic reads return them. |
| RegistryWire.SameCoreOrder | web/src/merge.ts:57-62 | On records the contract wrote, the client orders cores as the contract does: by ts, then signature bytes. |
| RegistryWire.SameNickname | web/src/merge.ts:66-76 | On nicknames the contract wrote, null included, the client picks the one the contract picks. |
| RegistryWire.SetIsUpdate | web/src/merge.ts:88-92 | Setting the nickname of a generic record is the contract's encoding of the record with that nickname: position and every other field stay. |
| RegistryWire.InsertRecord | web/src/merge.ts:80-93 | On a list that holds a registry and a record the contract wrote, the scan and splice leave the list that holds the registry with the record inserted. |
| RegistryWire.Rename | web/src/merge.ts:110-120 | One nickname update on the list is the contract's apply_nickname, unknown identities skipped. |
| RegistryWire.MergeRegistryState | web/src/merge.ts:95-126 | On the bytes the contract stores of a well-keyed registry and the bytes of a delta, the bytes written are the contract's own bytes of the delta applied. |
| Signing.FacadeSigningBytes | common/src/facade.rs:54-74 | The builder with its loop over the ring produces the pointer preimage. |
| Signing.AdmissionSigningBytes | common/src/registry.rs:155-189 | The builder with its loop over proof fields produces the admission preimage. |
| Signing.PlacementInjective | common/src/tile.rs:53-72 | Placement preimages determine parameters and fields. |
| Signing.MessageInjective | common/src/chat.rs:64-84 | Message preimages determine parameters and fields, content of any length below 2^32. |
| Signing.AdmissionInjective | common/src/registry.rs:155-189 | Admission preimages determine identity, time and proof, all three variable fields included. |
| Signing.NicknameInjective | common/src/registry.rs:192-207 | Nickname preimages determine identity, version and name. |
| Signing.ChallengeInjective | common/src/registry.rs:102-112 | Challenge preimages determine canvas and identity. |
| Signing.PointerInjective | common/src/facade.rs:54-74 | Pointer preimages determine parameters, pointer and ring. |
| Signing.PreimageInjective | common/src/registry.rs:102-207 | Equal preimages are equal statements: the kinds are never confused and every field is determined. |
| Signing.PlacementLayout | common/src/tile.rs:53-72 | The preimage is the context, canvas, tile x, tile y, registry, author, coord (2 bytes), color and ts (8 bytes), in this order. |
| Signing.MessageLayout | common/src/chat.rs:64-84 | The preimage is the context, canvas, registry, author, ts (8 bytes), seq (4 bytes), the content's length (4 bytes) and the content. |
| Signing.AdmissionLayout | common/src/registry.rs:155-189 | The preimage is the context, canvas, identity, ts, and 0 with the nonce or 1 with payload, signature and certificate, each after its length. |
| Signing.NicknameLayout | common/src/registry.rs:192-207 | The preimage is the context, canvas, identity, version, the name's length and the name. |
| Signing.ChallengeLayout | common/src/registry.rs:102-112 | The preimage is the context, canvas and identity. |
| Signing.PointerLayout | common/src/facade.rs:54-74 | The preimage is the context, owner, instance, version, 0 or 1 with the app, the ring's length, the ring and the web hash. |
| Facade.EncodeFacadeFrame | common/src/facade.rs:110-117 | Writes the frame of two slots. |
| Facade.TakeLen | common/src/facade.rs:121-128 | Succeeds exactly when the eight bytes are there and are the big-endian encoding of a length that fits usize, and returns that length. |
| Facade.ParseExact | common/src/facade.rs:110-144 | The parser accepts exactly the frames and returns their slots, so parse and encode are inverse in both directions. |
| Facade.RejectExact | common/src/facade.rs:120-144 | It reports trailing bytes exactly for a frame with bytes after it, and any other error exactly for a frame cut short. |
| FacadeContract.UpdateState | contracts/facade-contract/src/lib.rs:47-74 | Accepts exactly when the state is genesis or genuine and every payload is genuine, and returns the first of the greatest order keys among them: genuine unless all are genesis, and none of them above it in version and then signature. |
| FacadeContract.AcceptableExact | common/src/facade.rs:87-102 | A state is accepted if and only if it is the frame of metadata and an archive with at most 8 previous apps, the hash of that archive, and the owner's signature over the preimage of every field. |
| FacadeContract.EveryStoredIsGenuine | contracts/facade-contract/src/lib.rs:47-74 | Over every run what is stored is genesis or genuine, and nothing accepted is above it in version and then signature. |
| FacadeContract.LatestIsFirst | contracts/facade-contract/src/lib.rs:64-70 | Ties go to the earlier candidate: all before the winner are below it, none after is above it. |
| FacadeContract.LatestIsMaximum | contracts/facade-contract/src/lib.rs:64-70 | The winner is one of the candidates and none is above it. |
| FacadeContract.RunIsOneUpdate | contracts/facade-contract/src/lib.rs:47-74 | A run of calls stores what one call with everything accepted would. |
| FacadeContract.RegisterOverRuns | contracts/facade-contract/src/lib.rs:47-74 | The stored pointer has the maximum order key of the initial state and everything accepted, and the version never decreases. |
| FacadeContract.AcceptanceOrderIrrelevant | contracts/facade-contract/src/lib.rs:1-7 | Where one order key is signed for one state only, the result depends on nothing but which states were accepted. |
| FacadeContract.VersionSyncExact | contracts/facade-contract/src/lib.rs:76-127 | The version summary suffices if and only if the states are not tied in version with ours ahead (by signature, or a version-0 pointer against genesis). |
| FacadeContract.SyncInFields | contracts/facade-contract/src/lib.rs:76-127 | A genuine state is sent exactly to peers of a lower version; that misses what is ahead of the peer in the signature alone, and version 0 at a genesis peer. |
| FacadeContract.VersionZeroNotSent | contracts/facade-contract/src/lib.rs:109-126 | An acceptable version-0 pointer is not sent to a genesis peer, which would have stored it. |
| FacadeContract.TiedNotSent | contracts/facade-contract/src/lib.rs:109-126 | Of two acceptable pointers of one version the one ahead by signature is not sent to the holder of the other. |
| FacadeContract.TiedPointersExist | contracts/facade-contract/src/lib.rs:47-74 | Wherever two metadata of version 0 verify, their frames are two such pointers. |

## Left out

- Cryptography: ed25519, blake3 and ghost key certificates are parameters or opaque ordered byte strings; unforgeability is not stated.
- Rust-side serde and ciborium: contract payloads are already decoded or undecodable; the facade decodes metadata through a parameter.
- Fields outside the Rust widths: the client's decoders carry any number; here a field outside its Rust width counts as undecodable.
- JavaScript Map insertion order: the client's stores are Dafny maps walked in key order; what the loops over them compute is proved to depend on the set of entries only. Decoded maps are modelled as the Map the decoder builds, repeated keys included.
- RegistryWire.InsertRecord: records are values, so the one record object that delta and list share for a moment is not captured; the delta is not read again.
- RegistryWire.MergeRegistryState: states the result for the bytes the contract writes; nothing is stated for any other bytes.
- UTF-8, byte order marks and lone surrogates: text is carried as its bytes.
- Cbor.ReadValue: floats, tags, indefinite lengths and other simple values are the one unsupported error, as in the program.
- Fallback.Redeliver: timeouts and console output are not modelled; a timed-out call is one that may have landed and reports failure.
- Fallback.ChatLatticeLawful: the registry is not given a fallback instance, since renames of identities not admitted yet are dropped and ties need coherence.
- Replication.ChatConverges: the registry's histories are covered by RegistryLaws.Converges instead of a step system.
- TileLaws.WatermarkSync: unconditional anti-entropy is false (TileLaws.OlderPlacementNotSent); for tiles no history of insertions reaches, TileLaws.DeltaExactAnywhere gives the exact condition instead.
- RegistryStateJs: deliberately lossy display data that does not break timestamp ties by signature.
- The registry contract's own update loop, related-contract fetching, sockets, timers, reconnects and legacy probes.
- The identity delegate and the proof-of-work search: small, with only easy members.
- The user interface, colour maths, release scripts and build configuration.
