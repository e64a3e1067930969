# Verified model of the EnigmaNG mesh core

EnigmaNG is a secure mesh over ESP-NOW. This project models the four parts of a node that hold
state and proves what they guarantee, one call at a time and over whole runs of a network.

* **Router** (`RouteTable`, `RouteAdvCodec`, `SeenFrames`, `Router`): the 64-slot distance-vector
  table with split horizon, poison reverse and infinity 16 (compare section 3.4.3 of RFC 2453),
  its adverts on the wire, and the 32-slot ring of seen broadcasts.
  `RouteNetwork`, `Convergence` and `Upkeep` put tables together into a network; `Sending` and
  `Forwarding` follow a packet through it; `Forgetting`, `Reconvergence` and `CountingUp` say what
  becomes of it when contacts are lost.
* **Peer table** (`PeerTable`, `PeerMap`, `PeerManager`, `PeerRuns`): 16 slots of open addressing with
  rehash on delete, LRU eviction, and the 16-bit anti-replay counter (compare section 3.2 of
  RFC 1982).
* **Key exchange** (`Handshake`, `MeshNetwork`, `KeyExchange`, `KeyAgreement`, `PskIsolation`):
  HELLO / REPLY / CONFIRM over four context slots, one node's handlers, all runs of many nodes,
  and exactly when an accepted CONFIRM means equal keys.
* **Fragmentation** (`FragmentCodec`, `Reassembly`, `Fragmentation`, `Interleaving`): 224-byte
  chunks, four reassembly sessions driven by bitmasks, and interleaved delivery.

## How it is built

The source changes tables in place, so each part is a class over arrays whose methods follow the
source's loops. The contract of a method equates the new array with a function of the old one
(`RouteTable.AddRoute`, `Reassembly.Reassemble`, `Handshake.OnReply`, ...) or, for the peer
table, relates the maps before and after (`AddStep`, `RemoveStep`, ...). The properties are
lemmas about those functions and relations, and the runs of a network use the same ones.

* `now` is the value of `millis()`, a number below 2^32 that does not wrap within a run; ages are
  nevertheless computed modulo 2^32 where the source subtracts unsigned values.
* A MAC is a value of six bytes, `memcmp` is equality or byte order on them, an IP address is its
  32-bit number. Const input buffers are byte sequences; buffers that are written are arrays.
* A pointer to a table entry is the slot's index, and -1 (or the table size) is `nullptr`.
* `RouteNetwork.World` holds one table per node and every advert ever sent, as bytes. Adverts may
  be delivered any number of times, late, out of order or never. `links` is the set of radio
  contacts there have ever been; node addresses are one to one.
* In `Forwarding` a transmission arrives if its receiver hears its sender, and contacts work both
  ways. The frames of one packet all arrive at the next hop, which puts fragments together again
  (`Interleaving.RoundTrip`).
* In `Forgetting` and `CountingUp`, `links` remains the set of all contacts there have been and a
  second relation says which are left. A direct route is by design removed with its peer and never
  expired, so the results start when that has happened, and a beacon refreshes a route only while
  its sender is a peer, to which there is a direct route. Adverts are delivered within the spell
  of 90 s in which they were sent, or never. Every node has its own clock.
* `KeyExchange.World` holds every handshake message ever sent and each node's peer table. The key
  pair and nonce of a step are parameters; Diffie-Hellman, the key derivation and the network id
  are unknown functions. A message reaches only nodes whose network id, computed from their
  pre-shared key, is the sender's, as at `src/MeshNetwork.cpp:383-386`. A derived key is
  registered the way addPeer and setLinkKey do it, and the log keeps the peer table before and
  after; between two steps the rest of a node may do anything to that table.

## Where the code falls short of what is said about it

* The comment at `src/MeshNetwork.cpp:577` says that the CONFIRM is encrypted with the link key and
  proves that both sides derived it, and the repository's requirements (PSK authentication, in
  `openspec/changes/archive/2026-05-10-enigmang-v1-0/tasks.md:63`) that a node with a wrong
  pre-shared key fails at CONFIRM. In the code the CONFIRM is the plain XOR of the nonces, and
  its acceptance does not depend on the key (`ConfirmIgnoresKey`). `WrongPskExample` is a run that
  ends with two different keys registered; `WrongPskAccepted` shows that every undisturbed
  exchange between nodes with different pre-shared keys and one 16-bit network id ends like that.
  The exact conditions are: for one accepted CONFIRM of any run, the keys agree if and only if
  the two pre-shared keys are equal (`AgreedIffSamePsk`); for a whole network, they agree in
  every run if and only if different pre-shared keys always have different network ids
  (`AlwaysAgreeIffIsolated`).
* `fragment` is to return 0 on error (src/Fragmentation.h:31). `FragmentIsFaithfulIff` gives the
  exact condition under which a payload that is too large is neither refused nor carried whole,
  and `OversizedPayloadIsTruncated` a length at which that happens.
* `sendData` is said to cut packets longer than the MTU into fragments (src/MeshNetwork.h:79), but a
  relay, which puts the fragments together again, forwards what it has got in one frame or not at
  all (src/MeshNetwork.cpp:752-753, 840-841). So a packet of 229 to 1792 bytes reaches neighbours
  only: `ConvergedNetworkDelivers` has the exact condition, for every length and distance.
* According to the repository's routing requirements (openspec/specs/routing), nodes that miss a
  ROUTE_WITHDRAW forget a lost node by route expiry, within 90 s more. Three nodes that hear each
  other count up instead: from the state of `CircularExample`, the route is still there, and
  fresh, after 120 s of regular adverts and expiry (`FreshAfterTwoMinutes`). One spell of 90 s is
  enough in every run if and only if no node can pass its route on
  (`OneSpellIsEnoughIffQuiet`); 14 spells always are (`UnreachableForgotten`).
* Replayed frames are to be discarded, but no code under src/ calls `checkAndUpdateSeqRx` or
  `getNextSeqTx`: the results of `PeerRuns` are about the functions, and a unicast frame passes
  `AcceptFrame` whatever its sequence number.

## Model

| member | source | states |
|---|---|---|
| `RouteTable.AddRouteRefinesMap` | src/Router.cpp:11-61 | addRoute on the partial map keyed by IP: a known destination is merged (a direct route is never replaced by another next hop; otherwise fewer hops or the same next hop win), a new one takes a free slot, a full table loses exactly the eviction candidate's entry, every other entry is untouched, and destinations stay unique |
| `RouteTable.AddRouteWrites` | src/Router.cpp:11-61 | on the slots: at most one is written, a new route with all its fields as given, a known one only in next hop, hop count, metric and time; the table counts as changed exactly when one is written |
| `RouteTable.AddRouteCount` | src/Router.cpp:30-58 | the number of valid slots grows by one exactly when a free slot is filled, and not on merge or eviction |
| `RouteTable.EvictionIsLexicographic` | src/Router.cpp:252-271 | the candidate is the first slot with the most hops and, among those, the greatest age in 256 ms units; there is none exactly when all valid routes have zero hops and an age below 256 ms |
| `RouteTable.ScoreValue` | src/Router.cpp:261-262 | the shifted and OR-ed score loses no bits: it is hops times 2^24 plus age / 256 |
| `RouteTable.RemoveRefinesMap` | src/Router.cpp:81-91 | removal deletes one destination from the map and nothing else |
| `RouteTable.SweepRefinesMap` | src/Router.cpp:93-106 | a sweep deletes from the map exactly the entries meeting its condition |
| `RouteTable.ExpireRefinesMap` | src/Router.cpp:93-106 | expiry deletes from the map the routes that are not direct and not updated for more than 90 s, and no others |
| `RouteTable.WithdrawRefinesMap` | src/Router.cpp:176-184 | withdrawal deletes from the map the routes whose destination is that MAC, and no others |
| `RouteTable.AdvertRank` | src/Router.cpp:108-138 | an advert lists precisely the first max valid entries, in slot order, each at its rank |
| `RouteTable.AdvertOrigin` | src/Router.cpp:114-135 | every advertised entry comes from a valid slot of that rank |
| `RouteTable.ApplyOther` | src/Router.cpp:156-171 | processing one advertised destination leaves every other route alone, or at most evicts it from a full table |
| `RouteTable.PoisonRefinesMap` | src/Router.cpp:156-167 | an entry for our own address changes nothing; an unreachable one deletes its destination exactly when the route goes through the sender |
| `RouteTable.AcceptedCounts` | src/Router.cpp:156-173 | the result of deserializeRouteAdv is the number of entries that are neither for our own address nor unreachable |
| `RouteTable.PoisonReverseBreaksTwoNodeLoops` | src/Router.cpp:117-170 | after B processes A's fresh advert for B, no destination other than B among A's first max valid routes goes via B at A and via A at B |
| `RouteAdvCodec.EntryRoundTrip` | src/Router.cpp:129-133 | a 12-byte entry and its fields determine each other |
| `RouteAdvCodec.AdvertRoundTrip` | src/Router.cpp:140-159 | what is read from the bytes of an advert is the list that was written |
| `RouteAdvCodec.AdvertOnTheWire` | src/Router.cpp:114-135 | byte for byte, what is sent of each route: address in little-endian order, MAC, hop count plus one and metric, or 16 and 255 to the neighbour it goes through |
| `RouterClass.Router.constructor` | src/Router.cpp:6-9 | an empty, valid table and ring |
| `RouterClass.Router.FindRouteByIP` | src/Router.cpp:63-70 | the slot holding the destination's only route, or none when the map has none |
| `RouterClass.Router.FindRouteByMac` | src/Router.cpp:72-79 | the first valid slot with that destination MAC, or none exists |
| `RouterClass.Router.FindEvictionCandidate` | src/Router.cpp:252-271 | the scan computes the specified candidate |
| `RouterClass.Router.AddRoute` | src/Router.cpp:11-61 | new table, returned slot and topology flag are those of the specification; unique destinations and the stored count are kept |
| `RouterClass.Router.RemoveRoute` | src/Router.cpp:81-91 | the table loses the destination's route; the result says whether there was one |
| `RouterClass.Router.ExpireRoutes` | src/Router.cpp:93-106 | exactly the indirect routes not updated for more than 90 s go, on the slots and on the map |
| `RouterClass.Router.HandleRouteWithdraw` | src/Router.cpp:176-184 | exactly the routes to that MAC go, on the slots and on the map |
| `RouterClass.Router.SerializeRouteAdv` | src/Router.cpp:108-138 | the buffer starts with the encoded advert and is otherwise unchanged, and so is the table; the advert has as many entries as there are routes, whole entries in the buffer, or 18, whichever is least |
| `RouterClass.Router.DeserializeRouteAdv` | src/Router.cpp:140-174 | the table is the old one after each decoded entry in turn; the count is that of the entries offered |
| `RouterClass.Router.IsFrameSeen` | src/Router.cpp:186-200 | true exactly when an equal mark younger than 10 s is among the last 32 marks ever made, despite the slots it invalidates |
| `RouterClass.Router.MarkFrameSeen` | src/Router.cpp:202-209 | appends to the log of marks |
| `RouterClass.Router.Update` | src/Router.cpp:239-250 | expires routes; its sweep of the ring changes no later answer |
| `SeenFrames.RingIsLog` | src/Router.cpp:186-250 | scanning the ring is a lookup among the last 32 entries of the log |
| `SeenFrames.BroadcastsPassOnce` | src/MeshNetwork.cpp:391-395 | over every stream of broadcasts: one (source, sequence) passes twice only 10 s apart or with at least 32 others between, and a frame is dropped only when an equal one passed within 10 s |
| `RouteNetwork.StepSound` | src/Router.cpp:11-184 | every step of any node keeps every route and every advert in flight a real walk |
| `RouteNetwork.AdvertOfSoundTable` | src/Router.cpp:132 | advertised hop counts lie in 2..16, so the 8-bit addition never wraps, and below 16 they are lengths of real walks |
| `RouteNetwork.RoutesAreWalks` | src/Router.cpp:11-174 | in every run with losses, duplicates, delays, reordering, evictions, expiries and withdraws, each route of X to D with h hops via N has 1 <= h <= 15 and a walk of length h of links that have existed starting with N; h never understates the distance |
| `Convergence.ExchangeIsTwoSteps` | src/MeshNetwork.cpp:957-973 | an exchange is an advertisement and a delivery of its bytes in the network model |
| `Convergence.ExchangeRoute` | src/Router.cpp:108-174 | on at most 19 nodes an exchange acts on each destination by itself, as the sender's own route dictates |
| `Convergence.ExactSurvives` | src/Router.cpp:15-27 | an exact shortest route survives every exchange, when nearer ones are exact |
| `Convergence.ExactSpreads` | src/Router.cpp:140-174 | hearing from an exact neighbour on a shortest path makes the route exact |
| `Convergence.RoundAdvances` | src/MeshNetwork.cpp:957-973 | a round in which every pair in contact exchanges once pushes exactness one link farther |
| `Convergence.GreetingsMakeDirectRoutes` | src/MeshNetwork.cpp:588-590 | completed handshakes of all pairs in contact produce the direct routes convergence starts from |
| `Convergence.Converges` | src/Router.cpp:108-174 | after k rounds, in any order and with repetitions, from any sound state with direct routes, every pair at distance d <= k + 1, d <= 15, has a route of exactly d hops through a neighbour at distance d - 1, and all later exchanges keep it |
| `Upkeep.MoveUpholds` | src/Router.cpp:93-174 | an exact route that is as fresh as the last advert of its next hop stays both under every exchange and every expiry, while each neighbour has been heard within 90 s |
| `Upkeep.RoundUpholds` | src/Router.cpp:93-174 | with expiry at any moment, a round in which every node hears every neighbour still pushes exactness one link farther, also past stale routes that expire during it |
| `Upkeep.ConvergesWithExpiry` | src/Router.cpp:93-174 | the convergence result with expiry running, as long as no node expires its routes after more than 90 s of silence from a neighbour |
| `Forwarding.MacAndIPAgree` | src/Router.cpp:63-79 | both lookups find the same slot when addresses are one to one |
| `Forwarding.LoopFree` | src/MeshNetwork.cpp:745-754 | in a converged state the route of a node leads to a neighbour one link nearer, and says exactly that many hops |
| `Forwarding.FateOfFrame` | src/MeshNetwork.cpp:722-754 | the time is the answer to exactly the internal frames of known battery peers at a node not on battery; of all others exactly the IPv4 packets of at least 20 bytes for us or for all are delivered, and exactly those for others that fit one frame and have a route are relayed, to its next hop |
| `Sending.SendsWholeIff` | src/MeshNetwork.cpp:895-922 | sendData puts a packet on the air whole, as it is or as fragments that join to it, exactly when it has at most 1792 bytes, and every frame fits 250 bytes |
| `Sending.SendsHow` | src/MeshNetwork.cpp:895-922 | the frames go to the next hop of the first route, or straight to the destination when there is none; up to 216 bytes they are one whole frame, up to 1792 as many fragments as the length needs |
| `Sending.SendFragments` | src/MeshNetwork.cpp:910-920 | the fragment loop sends exactly those fragments to the next hop |
| `Forwarding.TooLongIsDropped` | src/MeshNetwork.cpp:752-753 | a packet too long for a transmission has not made it, however exact the tables are |
| `Forwarding.DescentArrives` | src/MeshNetwork.cpp:745-754 | while the tables of all nodes may change between two transmissions, as long as each is exact, the hop count drops by one at each relay, a packet short enough is at its destination after exactly h transmissions, and it visits no node twice |
| `Forwarding.ConvergedNetworkDelivers` | src/MeshNetwork.cpp:712-754 | after k rounds, an IPv4 packet for a node at distance h, at most k + 1, arrives in exactly h hops although any exchanges of adverts happen between the relays, and whatever peers, battery nodes or not, the relays have, if and only if it has at most 228 bytes, or at most 1792 and h is 1; a longer one is refused or truncated by the sender, or dropped by the first relay; at its destination it is delivered if it has at least 20 bytes, whoever passed it on |
| `Forgetting.EventReplaces` | src/Router.cpp:11-171 | in a group of nodes that uses only the contacts that are left, if routes to d of at most m hops are walks over those, no event makes a new route of at most m + 1 hops that is not |
| `Forgetting.RefreshReplaces` | src/MeshNetwork.cpp:464-469 | a beacon refreshes the time of the route to its sender and touches no other route |
| `Forgetting.WithdrawalsEnd` | src/Router.cpp:176-184 | after any withdrawals, in any order, a node has lost exactly its routes to the nodes it withdrew |
| `Forgetting.DirectRouteNeverExpires` | src/Router.cpp:97-100 | the 90 s expiry never removes a route whose next hop is its destination |
| `Forgetting.SpellSettles` | src/Router.cpp:93-171 | 90 s of any exchanges over the remaining contacts, closed by expiry at each node, make the routes to d right for one hop more |
| `Forgetting.StaleRoutesDie` | src/Router.cpp:93-171 | after n such spells every route to d of at most n + 1 hops is a walk over contacts that are left, and after 14 spells every route is |
| `Forgetting.UnreachableForgotten` | src/Router.cpp:93-171 | counting to infinity ends: n spells after the direct routes to a lost node are gone no node of the group has a route to it of at most n + 1 hops, and after 14 none at all |
| `Forgetting.WithdrawnIsForgotten` | src/Router.cpp:93-184 | from any sound state: when every node that had d as a neighbour withdraws it, 14 spells later no node of a group cut off from d has a route to it |
| `Reconvergence.SoundAgain` | src/Router.cpp:93-171 | after 14 spells all routing tables of the network are sound for the contacts that are left |
| `Reconvergence.Reconverges` | src/Router.cpp:11-174 | 14 spells, a handshake over each contact that is left and k rounds give exact routes over those contacts up to distance k + 1 |
| `CountingUp.OneSpellIsEnoughIffQuiet` | src/Router.cpp:93-171 | one spell of 90 s clears a group of the routes to a lost node in every run if and only if no node with a route of less than 15 hops is heard by a node of the group other than its next hop |
| `CountingUp.CountsUp` | src/Router.cpp:93-171 | with all adverts delivered, poison reverse and expiry at every node, three nodes in mutual contact that route in a circle make the route three hops longer in each interval and keep it fresh, up to 15 hops |
| `CountingUp.FreshAfterTwoMinutes` | src/Router.cpp:93-171 | from two hops, with an advert every 30 s, such a route is still held after 120 s |
| `CountingUp.CircularExample` | src/Router.cpp:93-171 | a concrete network in that state |
| `PeerTable.HashIsLastNibble` | src/PeerManager.cpp:10-15 | the hash of the last four bytes depends only on the last four bits |
| `PeerTable.EmptySlotEndsSearch` | src/PeerManager.cpp:17-25 | with no gaps on probe paths, an empty slot proves the peer absent |
| `PeerTable.InsertKeepsPaths` | src/PeerManager.cpp:35-48 | inserting at the first empty slot adds one peer to the map and leaves no gap |
| `PeerTable.HoleOpens` | src/PeerManager.cpp:68-73 | clearing a slot leaves gaps only on paths of the entries in the run right behind it |
| `PeerTable.RehashStep` | src/PeerManager.cpp:74-88 | one turn of the rehash loop loses no peer, keeps gaps only ahead of the loop, and either changes nothing or lowers the total displacement |
| `PeerTable.LoopDone` | src/PeerManager.cpp:74-89 | when the loop stops, no gap is left anywhere |
| `PeerTable.CountIsSize` | src/PeerManager.cpp:140-142 | the number of valid slots is the number of peers in the map |
| `PeerManagerClass.PeerManager.GetPeerCount` | src/PeerManager.cpp:140-142 | the stored count is the number of peers, at most 16 |
| `PeerManagerClass.PeerManager.Probe` | src/PeerManager.cpp:17-25 | finds the peer's slot exactly when the map has the peer |
| `PeerManagerClass.PeerManager.AddPeer` | src/PeerManager.cpp:27-56 | refreshes a known peer, inserts a new one, without a key and with all counters at 0, or on a full table first loses exactly one victim; fails only when nobody can be evicted; calls itself at most once |
| `PeerMaps.Added` | src/PeerManager.cpp:27-48 | field by field, the entry of a new peer; a known one changes in lastSeen only, and every other entry that is left is as before |
| `PeerManagerClass.PeerManager.RemovePeer` | src/PeerManager.cpp:64-92 | from any valid table, also a full one, the map loses exactly that peer and no gap remains; terminates by total displacement, then distance to a hole |
| `PeerManagerClass.PeerManager.Rehash` | src/PeerManager.cpp:75-87 | the loop body, on the array |
| `PeerManagerClass.PeerManager.EvictLRU` | src/PeerManager.cpp:112-138 | removes a least recently seen peer among those no route uses, else among all; fails only when all were seen at 2^32 - 1 |
| `PeerManagerClass.PeerManager.LeastRecentlySeen` | src/PeerManager.cpp:113-135 | the two scans find such a victim whenever there is one |
| `PeerMaps.VictimIsUnused` | src/PeerManager.cpp:112-138 | a peer that routes use is given up only when routes use all others too, and among its like the victim was seen first |
| `PeerMaps.Evicted` | src/PeerManager.cpp:112-138 | eviction finds a victim exactly when some peer was not last seen at 2^32 - 1; that peer goes and the others stay as they are |
| `PeerManagerClass.PeerManager.CheckAndUpdateSeqRx` | src/PeerManager.cpp:100-110 | accepts exactly the numbers 1 to 32767 ahead modulo 2^16, and records them |
| `PeerMaps.Checked` | src/PeerManager.cpp:100-110 | the same of the step on the map, which the runs are made of |
| `PeerManagerClass.PeerManager.GetNextSeqTx` | src/PeerManager.cpp:94-98 | next number modulo 2^16, 0 for an unknown peer |
| `PeerManagerClass.PeerManager.SetLinkKey` | src/PeerManager.cpp:155-165 | stores the key and restarts both counters |
| `PeerMaps.KeySet` | src/PeerManager.cpp:155-165 | field by field: key, epoch, flag and the two counters are set, all other fields and all other peers are as before |
| `PeerRuns.CounterLifts` | src/PeerManager.cpp:100-110 | between resets of a peer its accepted numbers lift to an unbounded counter, congruent modulo 2^16, growing by 1 to 32767 at each acceptance and moved by nothing done to other peers |
| `PeerRuns.AcceptedIffAhead` | src/PeerManager.cpp:100-110 | a number is accepted if and only if it lies 1 to 32767 ahead of that counter |
| `PeerRuns.SentInOrder` | src/PeerManager.cpp:94-98 | between resets the numbers sent to a peer are consecutive modulo 2^16, whatever is done to other peers |
| `PeerRuns.AcceptedIffLater` | src/PeerManager.cpp:94-110 | sender against receiver: a frame at most 32767 away from the last one accepted is accepted if and only if it was sent after that |
| `PeerRuns.ReplayNeedsTwoOthers` | src/PeerManager.cpp:104-106 | a number is accepted again only after at least two other acceptances |
| `PeerRuns.KeySetBefore` | src/PeerManager.cpp:27-165 | in every run an established link key was put there by setLinkKey, and has been there ever since |
| `Handshake.AllocKeepsNoShadow` | src/MeshNetwork.cpp:1151-1177 | using the allocated slot keeps at most one live context per MAC and no slot before a live one with its MAC, despite stale MACs and evictions |
| `Handshake.SlotSpares` | src/MeshNetwork.cpp:1151-1177 | a live exchange with another peer is given up only when all four slots hold one, and then one started first |
| `Handshake.FreeRetires` | src/MeshNetwork.cpp:1179-1186 | although it ignores the state, _freeHandshake always retires the live context of the MAC and no other |
| `Handshake.OnReplyKeeps` | src/MeshNetwork.cpp:547-611 | a REPLY that is acted on ends the exchange and changes no other live context |
| `Handshake.OnConfirmKeeps` | src/MeshNetwork.cpp:613-672 | the same for CONFIRM, matching or not |
| `Handshake.LinkKeySymmetric` | src/MeshNetwork.cpp:566-569 | the canonical MAC order makes the derivation symmetric |
| `Handshake.LinkKeyOrder` | src/MeshNetwork.cpp:566-569 | the MAC that is the lower number goes first |
| `Handshake.XorCancels` | src/MeshNetwork.cpp:578-581 | from the XOR of two nonces and either of them the other is recovered |
| `Handshake.ConfirmIgnoresKey` | src/MeshNetwork.cpp:632-643 | acceptance of a CONFIRM does not depend on the derived key |
| `Handshake.HelloIsAnswered` | src/MeshNetwork.cpp:517-545 | every well-formed HELLO is answered and remembered, whatever context its sender had before |
| `Handshake.ReplyCompletes` | src/MeshNetwork.cpp:547-611 | a REPLY to a waiting initiator yields the link key and a CONFIRM whose bits are the exclusive or of those of the nonces, so that either nonce gives away the other |
| `Handshake.ConfirmCompletes` | src/MeshNetwork.cpp:613-672 | a waiting responder accepts any payload whose bits are the exclusive or of those of the nonces, whatever key it derives, and sends the same back |
| `Handshake.ReplyEnds` | src/MeshNetwork.cpp:547-611 | a REPLY that is too short or not awaited changes nothing; any other ends the exchange, with a key and a CONFIRM exactly when a secret can be computed |
| `Handshake.ConfirmEnds` | src/MeshNetwork.cpp:613-672 | a CONFIRM that is too short or not awaited changes nothing; any other ends the exchange, with a key and an answer exactly when a secret can be computed and the first eight bytes are the exclusive or of the nonces |
| `Handshake.StartsNow` | src/MeshNetwork.cpp:487-545 | the whole context of an exchange that is begun or answered, counting its time from then, with all other contexts as before; no exchange is begun while there is one with that peer, and a short HELLO is not answered |
| `Handshake.TimesOut` | src/MeshNetwork.cpp:1023-1029 | an exchange under way survives the sweep, unchanged, up to ten seconds from its start, and not after that |
| `MeshNetworkClass.MeshNetwork.FindHandshake` | src/MeshNetwork.cpp:1141-1149 | the first live context of the MAC |
| `MeshNetworkClass.MeshNetwork.AllocHandshake` | src/MeshNetwork.cpp:1151-1177 | reuses the live context, else wipes a free slot, else the oldest |
| `MeshNetworkClass.MeshNetwork.FreeHandshake` | src/MeshNetwork.cpp:1179-1186 | clears the first slot with the MAC |
| `MeshNetworkClass.MeshNetwork.TimeoutHandshakes` | src/MeshNetwork.cpp:1023-1029 | exactly the contexts older than 10 s become idle |
| `MeshNetworkClass.MeshNetwork.InitiateHandshake` | src/MeshNetwork.cpp:487-515 | contexts and HELLO are those of the specification |
| `MeshNetworkClass.MeshNetwork.HandleKeyExchHello` | src/MeshNetwork.cpp:517-545 | contexts and REPLY are those of the specification |
| `MeshNetworkClass.MeshNetwork.HandleKeyExchReply` | src/MeshNetwork.cpp:547-611 | contexts and CONFIRM; the derived key is registered with the peer and the direct route installed exactly when a key was derived |
| `MeshNetworkClass.MeshNetwork.HandleKeyExchConfirm` | src/MeshNetwork.cpp:613-672 | the same on the responder's side |
| `MeshNetworkClass.JoinedPeer` | src/MeshNetwork.cpp:571-575 | after a completed exchange the peer holds the key, with the epoch and fresh counters, if it was known, there was room or somebody could be evicted, and otherwise the peer table is as before |
| `MeshNetworkClass.JoinedRoute` | src/MeshNetwork.cpp:588-590 | the direct route a completed exchange leaves behind: a new one, if there is room for it, or in place of a longer one, but not of another direct one |
| `MeshNetworkClass.JoinIsNeighbourStep` | src/MeshNetwork.cpp:588-590 | to the routes, completing an exchange is a neighbour step of the network model |
| `MeshNetworkClass.PeerIPDistinct` | src/MeshNetwork.cpp:589 | the derived addresses 10.200.x.y are one to one exactly when the last two MAC bytes differ between nodes |
| `MeshNetworkClass.PeerIPOctets` | src/MeshNetwork.cpp:589 | the octets of the derived address are 10, 200 and the last two bytes of the MAC |
| `PeerMaps.Registered` | src/MeshNetwork.cpp:571-575 | after registration the peer holds the key with fresh counters exactly when the table had room, knew the peer or could evict somebody; otherwise nothing has changed |
| `MeshNetworkClass.MeshNetwork.AcceptFrame` | src/MeshNetwork.cpp:383-395 | a frame passes exactly when it has our network id, is not our own and, if a broadcast, no equal one passed recently |
| `MeshNetworkClass.MeshNetwork.AcceptBroadcast` | src/MeshNetwork.cpp:391-395 | a broadcast passes and is logged exactly when no equal one did recently; early repeats never get through |
| `MeshNetworkClass.MeshNetwork.HandleRouteAdv` | src/MeshNetwork.cpp:676-685 | the advert is applied with the sender as next hop; only that peer's lastSeen changes |
| `MeshNetworkClass.MeshNetwork.HandleRouteWithdraw` | src/MeshNetwork.cpp:687-713 | routes and peers afterwards are those of the specification |
| `MeshNetworkClass.WithoutLost` | src/MeshNetwork.cpp:687-713 | after a ROUTE_WITHDRAW for another node no route leads to it, if one did it is no longer a peer, and no other route or peer is touched |
| `MeshNetworkClass.MeshNetwork.HandleData` | src/MeshNetwork.cpp:712-755 | a known sender is refreshed and nothing else changes; what becomes of the frame is as in `FateOfFrame`, by the peers and routes from before |
| `MeshNetworkClass.MeshNetwork.SendData` | src/MeshNetwork.cpp:895-922 | the frames that leave the node, all within 250 bytes and to the next hop; they carry the whole packet exactly up to 1792 bytes, as one frame up to 216 |
| `KeyExchange.StepKeeps` | src/MeshNetwork.cpp:487-672 | every step keeps valid slots in every node, ties every live context and message to the secrets made for it, and every registration to the exchange it came from |
| `KeyAgreement.ConfirmMatches` | src/MeshNetwork.cpp:632-638 | a matching XOR singles out the initiator's own exchange; an echoed CONFIRM cannot match |
| `KeyAgreement.KeysAgree` | src/MeshNetwork.cpp:487-672 | in every run, when a responder registers a key for A on a matching CONFIRM, A has earlier registered, as initiator and for that responder, the key of the same shared secret; both peer tables then hold their keys wherever addPeer had an entry to give; with one pre-shared key it is the same key |
| `KeyAgreement.AgreedIffSamePsk` | src/MeshNetwork.cpp:564-643 | when the key derivation is injective on what the run derives: an accepted CONFIRM means that A earlier registered the very same key if and only if the two pre-shared keys are equal |
| `PskIsolation.UndisturbedExchange` | src/MeshNetwork.cpp:487-672 | an undisturbed exchange between nodes of one network id ends with both keys in the peer tables, where addPeer has an entry to give, the initiator's first |
| `PskIsolation.WrongPskAccepted` | src/MeshNetwork.cpp:564-643 | with different pre-shared keys the same exchange goes through, the CONFIRM is accepted, and the two registered keys differ |
| `PskIsolation.WrongPskExample` | src/MeshNetwork.cpp:632-648 | a concrete network, with 16-byte keys, and a run in which an accepted CONFIRM leaves two different keys |
| `PskIsolation.AlwaysAgreeIffIsolated` | src/MeshNetwork.cpp:383-386 | accepted CONFIRMs mean equal keys in every run from boot if and only if nodes with different pre-shared keys have different 16-bit network ids |
| `FragmentCodec.FragmentPartition` | src/Fragmentation.cpp:8-32 | up to 57120 bytes: 0 exactly for an empty payload or one needing more than 8 or maxFragments chunks, else an exact partition into ceil(len/224) chunks, all but the last full, each fitting a 250-byte frame |
| `FragmentCodec.FragmentIsFaithfulIff` | src/Fragmentation.cpp:12-13 | for every payload: refused or carried whole, if and only if the chunk count does not overflow its 8-bit counter into the accepted range |
| `FragmentCodec.OversizedPayloadIsTruncated` | src/Fragmentation.cpp:12 | 57345 bytes are accepted as one fragment that carries 224 of them |
| `FragmentCodec.ParseFragment` | src/Fragmentation.cpp:36-41 | the receiver reads back the id, index, total and data that were sent |
| `FragmentCodec.FragmentOnTheWire` | src/Fragmentation.cpp:15-28 | byte for byte: the id in big-endian order, index, total, and 224 bytes of the payload or its rest |
| `FragmentCodec.ParsedIff` | src/Fragmentation.cpp:36-48 | a fragment is accepted exactly with a header of four bytes, a total of 1 to 8 and an index below it; at most 224 bytes of it are taken |
| `Reassembly.StoreIsMapUpdate` | src/Fragmentation.cpp:50-56 | storing a fragment, through mask, length and buffer prefix, is one update of the map from index to data |
| `Reassembly.MaskComplete` | src/Fragmentation.cpp:58-60 | the mask comparison holds exactly when the stored indices are 0 to fragTotal - 1 |
| `Reassembly.ReassembleRefinesMap` | src/Fragmentation.cpp:34-74 | for any fragment, consistent or not: malformed ones change nothing; others update their own message's map, which is returned in index order from the latest data, at most 1792 bytes, exactly when complete; other messages are untouched unless given up |
| `Reassembly.GivenUpIsOldest` | src/Fragmentation.cpp:110-125 | a message is given up only when all four sessions are in use, and is one started first |
| `Reassembly.DropStaleRefinesMap` | src/Fragmentation.cpp:76-83 | update forgets exactly the messages begun more than 2 s ago |
| `FragmentationClass.Fragmentation.FragmentPayload` | src/Fragmentation.cpp:8-32 | returns the specified count and writes exactly those fragments, leaving the other buffers alone |
| `FragmentationClass.Fragmentation.NextFragId` | src/Fragmentation.h:51 | ids count up modulo 2^16 |
| `FragmentationClass.Fragmentation.AllocSession` | src/Fragmentation.cpp:96-126 | a free slot, else the oldest, is opened for the key |
| `FragmentationClass.Fragmentation.Reassemble` | src/Fragmentation.cpp:34-74 | sessions and returned message are those of the specification; the message lies at the start of the output buffer |
| `FragmentationClass.Fragmentation.CopyOut` | src/Fragmentation.cpp:62-67 | joins the buffers in order without leaving the 1792-byte output buffer |
| `FragmentationClass.Fragmentation.Update` | src/Fragmentation.cpp:76-83 | drops exactly the stale sessions |
| `Interleaving.InterleavedReassembly` | src/Fragmentation.cpp:34-126 | for every interleaving, with duplicates, of the fragments of at most four messages: an arrival returns its message byte for byte exactly when it completes the index set, and nothing otherwise |
| `Interleaving.RoundTrip` | src/Fragmentation.cpp:8-74 | nothing is returned until the last missing fragment arrives, and then exactly the payload |

## Left out

- Cryptographic primitives (src/Crypto.cpp): parameters with the stated assumptions; encryption of data frames is not modelled. That network ids are 16 bits of a hash, and so collide by chance, is not quantified.
- NetifDriver, PhysicalLayer, Gateway, Onboarding, WebUI, ProxyHandler, MeshNode8266 and BatteryNode: I/O, or thin clients of the parts modelled here.
- The gateway list of the router, the service list, getPeerByIndex and the plain header codec: they would only add easy members.
- Static routes with hop count 0 (src/MeshNetwork.cpp:294): the table operations cover them, the network results do not.
- Rebroadcast of ROUTE_WITHDRAW, beacon metadata, ARP queries and key rotation: in the network model a withdraw, a refresh or a neighbour step may happen at any time.
- _checkPeerTimeouts as a sweep over all peers: only its timeout of handshakes is modelled; its removals are single removePeer and withdraw steps.
- Liveness of handshakes: when both sides send HELLO at once both wait for the timeout; only safety and the undisturbed exchange are stated.
- Agreement for the initiator: it installs its key before any confirmation, from whatever REPLY reaches it while its HELLO is out; only the responder's side is matched by an earlier entry of the other.
- Pointers returned into tables: the caller's later writes through them are the separate `Store` and `Touch` steps.
- Loss of single frames of a packet on its way, and the relaying of packets by nodes with relaying disabled.
- Wrap-around of millis() within a run.
