# Routing stack and connection gate: a verified model

The framework routes a user id to a server through a stack of data structures:
a red-black tree map with parent pointers, a consistent hash ring on top of it, and
a service registry that is fed by PUT and DELETE events and read without a lock.
Its gate keeps one session per user and frames messages on TCP connections by a
length prefix. This project models these parts in Dafny and proves what they keep.

Code that works in place is modelled in place (`RedBlackMap`, `MapIterator`,
`HashRing`, `Registry`, `Sessions`, `TcpConnect`): classes with the source's fields
and methods in the source's branches. Every such method is proved against a function
on values, and the theorems are about that function and about whole runs of it.

| file | content |
|---|---|
| `Comparators`, `SortedEntries`, `Int32`, `Wrappers` | comparators as total orders; sorted entry lists as finite maps; the int32 counter; optional and error results |
| `RedBlackTrees` | tree values, the context around a subtree, the red-black invariants, the height bound |
| `RedBlackRepair` | the insert and delete repairs as functions, with their correctness |
| `TreeSearch`, `TreeUpdates` | descents, and what Put and Remove do to a good tree |
| `NodeHeap` | nodes with parent pointers, and when a heap holds a tree value |
| `RedBlackMap`, `MapIterator`, `MapRuns` | the map, its iterator, runs of updates |
| `RingSpec`, `HashRing` | the ring as a value, and the ring object on the map |
| `RegistrySpec`, `Registry` | replaying an event log, and the service and dispatcher objects |
| `RoutingRace` | one writer's single steps interleaved with lock-free readers |
| `SessionSpec`, `Sessions` | the session manager's runs, and the re-entrant session objects |
| `FrameSpec`, `TcpConnect` | frames as byte sequences, and the connection with its buffers |

How the heap is tied to values: `Focus(root, c, t)` says that the nodes from the map's
root are exactly the subtree `t` in the context `c`, children, parents, colours, keys
and values included. A rotation or recolouring is proved to turn one such description
into the next, so that a whole repair computes `InsertFix` or `DeleteFix`.

## What the proofs show about the code

- A black node with one red child is painted red before the delete repair starts
  (`dispatcher/hash/maps/maps.go:133-136`). This is right because the repair never
  looks at the node's colour and always leaves its parent black: `Repairs` has that as
  a conjunct, and `SpliceIsRedBlack` uses it.
- The second branch of `deleteCase6` does not test the node's side. It is only reached
  for a right child: the precondition of `DeleteCase6` (the far nephew is red), which
  `deleteCase5` establishes, settles the side.
- The second `ErrEmptyRing` of `Get` is unreachable, because tree and id map always
  have the same ids.
- `eltKey` puts the index before the name without a separator. Names and indices are
  told apart for all names exactly up to 10 replicas (`KeysApartIff`; the default is
  5). For names that do not begin with a digit, such as registry keys below an
  application name that begins with a letter, any number will do (`PathKeysApart`).
- Processes agree on every route in every pair of histories exactly if no two members
  share a virtual node id (`AgreementIff`); with a shared id the member added last
  owns it.
- Taking a member out keeps the routes of all other names exactly if every id of its
  that another member owns falls back to that member (`RemoveKeepsOthersIff`), as it
  does when it owns all of its ids (`RemoveDisruptsMinimally`).
- A DELETE for a key that was never there still lowers the counter, after which a
  service with a proxy can refuse to route (`MissedDeleteBlocksRouting`). Two processes
  that hold the same proxies then route differently (`MissedDeleteSplitsProcesses`);
  they agree exactly if both counters are zero or neither is (`ProcessesAgreeIff`).
- A reader can be left with a missing proxy (`NilProxyHappens`). It is exactly if the
  map step of a DELETE of that key falls between its ring read and its map read and no
  PUT stores the key again before the map read; the ring step of a DELETE then falls in
  between as well (`NilProxyIff`).
- The session counter is always the number of stored sessions, but a stored session
  need not be a running one. A session that stops while it waits to be added is stored
  stopped (`StopWhileWaiting`), and so is one that is added a second time; adding stores
  a stopped session in no other case (`AddStoresStoppedIff`). A login that is refused for coming too soon takes
  the running session of that user out of the map (`RefusedLoginEvicts`,
  `RefusedAddForgetsUserIff`). A session whose later verification failed, or that was
  verified under a second user id, stays stored when it stops (`FailedVerifyStaysStored`,
  `SecondUserStaysStored`, `StopForgetsIff`).
- `OnSend` accepts a payload whose length does not fit a 2-byte head if the packet size
  allows it. Such a payload, and no other, is not received as it was sent
  (`StreamRoundTripIff`); it cannot occur exactly if the packet size is below
  the head's size plus its capacity (`AcceptedFitIff`).

## Model

| member | source | states |
|---|---|---|
| Comparators.UInt32IsTotalOrder | dispatcher/hash/containers/comparator.go:147-158 | the uint32 comparator is a strict total order that is zero only on equal keys |
| Comparators.StringComparator | dispatcher/hash/containers/comparator.go:20-41 | the loop returns -1, 1 or 0 exactly if the first string is lexicographically smaller, larger or equal, byte by byte |
| Comparators.StringsAreTotallyOrdered | dispatcher/hash/containers/comparator.go:20-41 | the string comparison is antisymmetric, transitive and zero only on equal strings, as the tree assumes of any comparator |
| RedBlackRepair.InsertFixIsRedBlack | dispatcher/hash/maps/maps.go:355-403 | the insert repair of a red subtree in a good context, moving the violation two levels up at a time, ends in a red-black tree |
| RedBlackRepair.InsertFixContents | dispatcher/hash/maps/maps.go:355-403 | the insert repair keeps all entries in order and all nodes |
| RedBlackRepair.RaiseSiblingDeficient | dispatcher/hash/maps/maps.go:422-434 | after the case 2 rotation the parent is red and the sibling black, so that case 3 cannot go up again |
| RedBlackRepair.DeleteFixRepairs | dispatcher/hash/maps/maps.go:415-493 | the delete repair turns any context that is one black short into one that accepts the shorter subtree, keeps the node's parent and side, and leaves that parent black |
| RedBlackRepair.DeleteFixContents | dispatcher/hash/maps/maps.go:415-493 | the delete repair keeps all entries to both sides of the node in order, and all nodes |
| RedBlackTrees.SplitRedBlack | dispatcher/hash/maps/maps.go:36-49 | black heights and colours around any subtree of a red-black tree fit it |
| RedBlackTrees.HeightIsLogarithmic | dispatcher/hash/maps/maps.go:278-292 | 2^(height/2) is at most the number of entries plus one in every red-black tree |
| RedBlackTrees.DescentBound | dispatcher/hash/maps/maps.go:278-292 | a node's depth plus the height below it never exceeds the tree's height |
| TreeUpdates.SpliceIsRedBlack | dispatcher/hash/maps/maps.go:127-141 | taking out a node with at most one child, painted like its child while the repair runs, leaves a red-black tree |
| TreeUpdates.SpliceContents | dispatcher/hash/maps/maps.go:127-141 | it takes out exactly that node and its entry |
| TreeUpdates.InsertTree | dispatcher/hash/maps/maps.go:67-105 | a red node put where the search ended, then repaired, gives a sorted red-black tree with one key changed |
| TreeUpdates.RemovePredecessor | dispatcher/hash/maps/maps.go:121-126 | copying the predecessor's entry up and taking the predecessor out removes exactly the key |
| NodeHeap.RotateFocus | dispatcher/hash/maps/maps.go:318-353 | the pointer changes of a rotation, with every parent pointer, make the heap hold the rotated tree |
| RedBlackMap.Map.ReplaceNode | dispatcher/hash/maps/maps.go:340-353 | the new node takes the old one's place under its parent or as the root, and gets its parent pointer |
| RedBlackMap.Map.RotateLeft | dispatcher/hash/maps/maps.go:318-327 | the heap holds the left rotation of the subtree in the same context, counted as one rotation |
| RedBlackMap.Map.RotateRight | dispatcher/hash/maps/maps.go:329-338 | the heap holds the right rotation of the subtree in the same context, counted as one rotation |
| RedBlackMap.Map.InsertCase1 | dispatcher/hash/maps/maps.go:355-361 | the five cases together compute the insert repair with at most two rotations |
| RedBlackMap.Map.InsertCase3 | dispatcher/hash/maps/maps.go:370-380 | a red uncle sends the repair two levels up, otherwise the rotations finish it |
| RedBlackMap.Map.DeleteCase1 | dispatcher/hash/maps/maps.go:415-420 | the six cases together compute the delete repair with at most three rotations, and end |
| RedBlackMap.Map.DeleteCase3 | dispatcher/hash/maps/maps.go:436-447 | the black height forces the sibling to exist; all-black neighbours move the repair up |
| RedBlackMap.Map.DeleteCase5 | dispatcher/hash/maps/maps.go:462-480 | a red near nephew is turned to the far side before case 6 |
| RedBlackMap.Map.DeleteCase6 | dispatcher/hash/maps/maps.go:482-493 | with the far nephew red, one rotation on the node's own side gives the sibling the parent's colour and repairs the context |
| RedBlackMap.Map.Put | dispatcher/hash/maps/maps.go:67-105 | keeps the map valid (sorted, red-black, linked, sized), sets exactly one key, rotates at most twice, and descends at most the height |
| RedBlackMap.Map.Remove | dispatcher/hash/maps/maps.go:115-143 | keeps the map valid, removes exactly the key, and rotates at most three times |
| RedBlackMap.Map.Lookup | dispatcher/hash/maps/maps.go:278-292 | finds the node with the key and its value exactly if the map has the key, and otherwise the hole the key belongs in, within the height |
| RedBlackMap.Map.Get | dispatcher/hash/maps/maps.go:107-113 | returns the finite map's value, or nothing |
| RedBlackMap.Map.Ceiling | dispatcher/hash/maps/maps.go:212-231 | returns the first entry whose key is not below the given one, or nothing exactly if all are below, within the height |
| RedBlackMap.Map.Floor | dispatcher/hash/maps/maps.go:191-210 | returns the last entry whose key is not above the given one, or nothing exactly if all are above, within the height |
| RedBlackMap.Map.Left | dispatcher/hash/maps/maps.go:171-179 | returns the node that holds the first entry, none exactly for an empty map |
| RedBlackMap.Map.Right | dispatcher/hash/maps/maps.go:181-189 | returns the node that holds the last entry, none exactly for an empty map |
| RedBlackMap.Map.Clear | dispatcher/hash/maps/maps.go:233-236 | leaves the empty map |
| RedBlackMap.Map.SizeIsCardinality | dispatcher/hash/maps/maps.go:149-151 | the size field is the cardinality of the finite map |
| MapIterator.CompareIndices | dispatcher/hash/maps/iterator.go:57-65 | comparing keys compares in-order positions, which the climb relies on |
| MapIterator.ParentIndex | dispatcher/hash/maps/iterator.go:57-65 | a parent is the in-order neighbour of the subtree below it |
| MapIterator.Iterator.Next | dispatcher/hash/maps/iterator.go:38-75 | a saturating +1 on the in-order cursor from -1 to n, true exactly if an entry was reached |
| MapIterator.Iterator.Prev | dispatcher/hash/maps/iterator.go:77-114 | a saturating -1 on the same cursor, true exactly if an entry was reached |
| MapIterator.Iterator.First | dispatcher/hash/maps/iterator.go:134-137 | goes to the first entry, true exactly if there is one |
| MapIterator.Iterator.Last | dispatcher/hash/maps/iterator.go:139-142 | goes to the last entry, true exactly if there is one |
| MapIterator.Iterator.Key | dispatcher/hash/maps/iterator.go:120-122 | the key of the entry at the cursor |
| MapIterator.Iterator.Value | dispatcher/hash/maps/iterator.go:116-118 | the value of the entry at the cursor |
| MapIterator.NextThenPrev | dispatcher/hash/maps/iterator.go:38-114 | a step back undoes a step forward exactly before the end |
| MapIterator.PrevThenNext | dispatcher/hash/maps/iterator.go:38-114 | a step forward undoes a step back exactly after the beginning |
| MapIterator.Scan | dispatcher/hash/maps/maps.go:153-169 | a scan from the beginning visits each entry once, in order |
| MapIterator.Keys | dispatcher/hash/maps/maps.go:153-160 | lists exactly the map's keys, strictly increasing |
| MapIterator.Values | dispatcher/hash/maps/maps.go:162-169 | lists the values in the order of the keys |
| MapRuns.Replay | dispatcher/hash/maps/maps.go:67-143 | after any sequence of Put, Remove and Clear the map holds what the sequence gives on values, with its size, its height bound and at most three rotations an update |
| MapRuns.LastUpdateDecides | dispatcher/hash/maps/maps.go:67-143 | after any sequence of updates a key is bound to a value exactly if the last update that concerns it puts that value |
| MapRuns.HeightBound | dispatcher/hash/maps/maps.go:67-105 | every valid map has 2^(height/2) at most size plus one |
| RingSpec.KeysApartIff | dispatcher/hash/hash_ring.go:70-72 | virtual node keys of all names and indices differ exactly if there are at most 10 replicas |
| RingSpec.PathKeysApart | dispatcher/hash/hash_ring.go:70-72 | for names that do not begin with a digit they differ for any number of replicas |
| RingSpec.NumeralIsItoa | dispatcher/service.go:161 | the decimal form of an id is the one string of digits without a leading zero that reads as the id from left to right |
| RingSpec.FormatIntReadsBack | dispatcher/hash/hash_ring.go:157 | the decimal form of an integer reads back, with a sign exactly for a negative one |
| RingSpec.IdListIs | dispatcher/hash/hash_ring.go:74-84 | the ids of a member are the hashes of each index followed by its name, in order |
| RingSpec.AddedIs | dispatcher/hash/hash_ring.go:74-84 | adding gives the member all of its ids, whoever owned them, and leaves every other id alone |
| RingSpec.RemovedIs | dispatcher/hash/hash_ring.go:86-93 | removing takes away all of the member's ids, whoever owned them, and leaves every other id alone |
| RingSpec.RunIsGood | dispatcher/hash/hash_ring.go:74-93 | in every run, with or without colliding ids, every id is owned by a current member that has it among its virtual nodes |
| RingSpec.Successor | dispatcher/hash/hash_ring.go:139-148 | the smallest id not below a hash value, or the smallest of all, exists and is unique |
| RingSpec.SuccessorIsNearest | dispatcher/hash/hash_ring.go:139-148 | the successor is the id nearest clockwise on the circle of uint32 values |
| RingSpec.RouteIsNearestOwner | dispatcher/hash/hash_ring.go:133-149 | a hash value is routed to a member exactly if the member owns the id nearest clockwise |
| RingSpec.RoutesToMembers | dispatcher/hash/hash_ring.go:133-149 | routing fails exactly on a ring without ids and never gives a non-member |
| RingSpec.AddDisruptsMinimally | dispatcher/hash/hash_ring.go:74-84 | adding a member moves a name to that member or not at all, even with colliding ids |
| RingSpec.RemoveDisruptsMinimally | dispatcher/hash/hash_ring.go:86-93 | removing a member whose ids nobody else owns moves only the names it had |
| RingSpec.RemoveKeepsOthersIff | dispatcher/hash/hash_ring.go:86-93 | all names of other members keep their owner exactly if every removed id that another member owned is routed to that member afterwards |
| RingSpec.RemoveKeepsSurvivors | dispatcher/hash/hash_ring.go:86-93 | a name whose id stays keeps its owner, whoever owned the removed ids |
| RingSpec.AddTwice | dispatcher/hash/hash_ring.go:74-84 | adding a member twice is adding it once |
| RingSpec.RemoveUndoesAddIff | dispatcher/hash/hash_ring.go:74-93 | removing undoes adding exactly for a new member whose ids were all free |
| RingSpec.Agreement | dispatcher/hash/hash_ring.go:74-93 | two histories that end in the same members give the same ring and routes if no two members ever named share an id |
| RingSpec.ClashBreaksAgreement | dispatcher/hash/hash_ring.go:74-84 | two members that share an id are routed differently after different orders |
| RingSpec.AgreementIff | dispatcher/hash/hash_ring.go:74-149 | all histories over a set of names agree exactly if no two of them share an id |
| HashRings.HashRing.Add | dispatcher/hash/hash_ring.go:74-84 | map, tree and member set move together; every id of the member, and no other, gets it as owner; the ids are returned in order |
| HashRings.HashRing.Remove | dispatcher/hash/hash_ring.go:86-93 | map, tree and member set move together; every id of the member, and no other, is gone, whoever owned it |
| HashRings.HashRing.Members | dispatcher/hash/hash_ring.go:123-131 | lists every member once |
| HashRings.HashRing.FindId | dispatcher/hash/hash_ring.go:139-148 | ceiling, else first entry of the tree, is the successor among the ids |
| HashRings.HashRing.Get | dispatcher/hash/hash_ring.go:133-149 | returns the owner of the id nearest clockwise from the hash of the name, or the error exactly on a ring without ids |
| HashRings.HashRing.Get64 | dispatcher/hash/hash_ring.go:151-167 | returns the hash of the owner of the id nearest clockwise from the hash of the value's decimal form, or the error exactly on a ring without ids |
| HashRings.CeilingIsSuccessor | dispatcher/hash/hash_ring.go:140-148 | the tree's ceiling is the next id on the ring |
| HashRings.FirstIsSuccessor | dispatcher/hash/hash_ring.go:141-145 | without a ceiling the ring wraps around to the first id |
| RegistrySpec.ReplayKeepsLastPut | dispatcher/dispatcher.go:217-270 | after any log a service holds a key with a value exactly if its name may have a service (no names configured, or configured with a positive type) and the key's last event put that value |
| RegistrySpec.ReplayServices | dispatcher/dispatcher.go:223-233 | a service exists exactly if a PUT below its name was seen and no names are configured or its name is with a positive type; it is hash-routed exactly if configured with type 1 |
| RegistrySpec.ReplayIsOk | dispatcher/service.go:57-97 | a hash-routed service's ring members are its proxies' keys, after any log |
| RegistrySpec.ReplayCount | dispatcher/service.go:57-77 | after any log the int32 counter stands for the number of proxies less the DELETEs that found none, and is that number while it fits |
| RegistrySpec.HashRouteIff | dispatcher/service.go:155-174 | a hash-routed service answers with a key exactly if the counter is not zero, the key owns the successor of the hash of the id's numeral, and it has a proxy; and which error it answers otherwise |
| RegistrySpec.PlainRouteIff | dispatcher/service.go:155-174 | any other service answers with `route_` and the numeral exactly if that key has a proxy and the counter is not zero |
| RegistrySpec.LookupProxyIff | dispatcher/dispatcher.go:358-379 | the errors of a lookup: no type, no id, no such service, or that of the service's routing |
| RegistrySpec.ReplayRoutesToOwner | dispatcher/service.go:155-174 | in any replayed registry a hash-routed service with a counter answers with a key exactly if the key owns the successor of the hash of the id's numeral |
| RegistrySpec.ReplayRoutes | dispatcher/service.go:155-174 | between events a hash-routed lookup fails only on a zero counter or a ring without ids, never on a missing proxy |
| RegistrySpec.ReplayRoutesToProxies | dispatcher/service.go:155-174 | without shared virtual nodes and with at least one replica, a hash-routed service routes every id exactly if its counter is not zero and it has a proxy |
| RegistrySpec.ReplayRunsRing | dispatcher/service.go:63-97 | a service's ring is the run of the ring operations its log amounts to |
| RegistrySpec.ProcessesAgree | dispatcher/service.go:155-174 | processes that saw different logs but hold the same keys of a service route every id alike, if no two keys share a virtual node and no counter is zero |
| RegistrySpec.ProcessesAgreeIff | dispatcher/service.go:155-174 | whatever their counters, they route an id alike exactly if both counters are zero or neither is |
| RegistrySpec.MissedDeleteSplitsProcesses | dispatcher/service.go:63-77 | after one more DELETE of a key that was never there two processes hold the same proxy and route every id differently |
| RegistrySpec.MissedDeleteBlocksRouting | dispatcher/service.go:63-77 | one DELETE of a key that was never there makes a service with one proxy refuse to route |
| Registries.Service.AddProxy | dispatcher/service.go:57-61 | keeps a proxy that is already there; counts in any case |
| Registries.Service.CreateProxy | dispatcher/service.go:79-97 | proxy map, counter and ring move to the created state |
| Registries.Service.DelProxy | dispatcher/service.go:63-77 | ring, proxy map and counter move to the deleted state, found or not |
| Registries.Service.RouteById | dispatcher/service.go:155-174 | returns the proxy whose key owns the successor of the hash of the decimal id, or the error of the first read that fails: counter, ring, proxy map |
| Registries.Dispatcher.AddService | dispatcher/dispatcher.go:217-249 | the registry moves as one PUT event says; the key is there with its value exactly if its service name may have a service, and nothing changes otherwise |
| Registries.Dispatcher.RemoveService | dispatcher/dispatcher.go:251-270 | the registry moves as one DELETE event says; the two errors come exactly for a name that may have no service and for a name without one, and then nothing changes |
| Registries.Dispatcher.Watch | dispatcher/dispatcher.go:119-215 | handling a log event by event leaves the replayed registry |
| Registries.Dispatcher.GetProxy | dispatcher/dispatcher.go:358-379 | checks type and id, then service, then counter and ring; returns the proxy whose key owns the successor of the hash of the decimal id |
| RoutingRace.RunKeepsInv | dispatcher/service.go:57-97 | in every interleaving the ring's members are among the proxies' keys, each id has a member as owner, and the int32 counter stands for proxies plus what is in flight less missed DELETEs |
| RoutingRace.CountCoversProxies | dispatcher/service.go:57-77 | without missed DELETEs the int32 counter stands at every step for the number of proxies or one more; while that number fits, zero means none |
| RoutingRace.RunRefinesReplay | dispatcher/service.go:57-97 | however readers interleave, the writer's single steps leave what handling its events one at a time leaves |
| RoutingRace.ServedIsReplay | dispatcher/dispatcher.go:217-270 | that is the service the registry replay of the same log leaves |
| RoutingRace.CountReadIff | dispatcher/service.go:156-158 | a reader is turned away at its first read exactly if the counter is zero at that moment |
| RoutingRace.RingReadIff | dispatcher/service.go:160-164 | at its second read it fails exactly if the ring has no ids at that moment, and otherwise gets the owner of the successor of the hash of the id's numeral |
| RoutingRace.QuietLookup | dispatcher/service.go:155-174 | a reader that meets no writer step between its first and last read ends as the service answers in that state |
| RoutingRace.NilProxyIff | dispatcher/service.go:155-174 | a routed lookup ends without a proxy exactly if the map step of that key's DELETE fell between its ring read and its map read and no PUT stored the key after it, and otherwise with the proxy; the ring step of a DELETE then fell in between too |
| RoutingRace.NilProxyHappens | dispatcher/service.go:155-174 | a run in which that happens, for any key and id |
| SessionSpec.CountIsStored | gate/session/session_mgr.go:50-96 | over every run of connecting, verifying, adding, stopping and deleting the counter is the number of stored sessions |
| SessionSpec.MadeRoomCounts | gate/session/session_mgr.go:58-67 | before the new session is stored the counter is one ahead, whatever stopping the old one deleted |
| SessionSpec.ZeroIsNeverStored | gate/session/session.go:254-263 | user id 0 never waits and is never stored |
| SessionSpec.AcceptedAddsAreApart | gate/session/session_mgr.go:51-56 | with a positive clock that never goes back, two accepted adds of one user id are at least 3000 ms apart |
| SessionSpec.TakeAcceptsIff | gate/session/session_mgr.go:50-72 | the converse too: the session whose turn it is, is accepted exactly if every accepted add of its user id was stored at least 3000 ms before; then it is stored and not stopped by the add unless stored already, and otherwise it is stopped |
| SessionSpec.TooSoonIff | gate/session/session_mgr.go:51-52 | while the clock does not overflow, an add is too soon exactly within 3000 ms of a remembered time other than 0 |
| SessionSpec.QueueIsFifo | gate/session/session_mgr.go:36-48 | sessions get their turns in the order of their successful verifications |
| SessionSpec.AddStopsPrevious | gate/session/session_mgr.go:58-61 | an accepted add stops the session that was stored under the user id |
| SessionSpec.StopUserStops | gate/session/session_mgr.go:74-85 | stopping a user stops the session stored under the id and no other |
| SessionSpec.StopSettles | gate/session/session.go:96-119 | the first stop clears the verification and takes the link down, touches no other session, and a second one changes nothing |
| SessionSpec.LinkFollowsStop | gate/session/session.go:102-117 | over every run a session has the link it connected with, except that an open one is down once the session has stopped |
| SessionSpec.AddStoresStoppedIff | gate/session/session_mgr.go:58-71 | an accepted add stores the session; it is a stopped one exactly if it had stopped before or was stored under that id already |
| SessionSpec.RefusedAddForgetsUserIff | gate/session/session_mgr.go:52-56 | a refused add leaves the user's entry exactly if there was one and the refused session was stopped or unverified, or the id is 0 |
| SessionSpec.StopForgetsIff | gate/session/session.go:96-119 | a stopping session leaves the map exactly if it is stored nowhere but under its current id, and verified if it is stored there |
| SessionSpec.StopWhileWaiting | gate/session/session_mgr.go:58-71 | a session that connects, verifies and stops before it is added is stored stopped |
| SessionSpec.RefusedLoginEvicts | gate/session/session_mgr.go:51-56 | a second login of a user within the throttle leaves the first session running and verified but nobody stored |
| SessionSpec.FailedVerifyStaysStored | gate/session/session.go:264-270 | a stored session whose later verification failed is still stored after it stops |
| SessionSpec.SecondUserStaysStored | gate/session/session.go:260-263 | a stored session verified under a second id is still stored under the first after it stops |
| SessionSpec.StopForgets | gate/session/session.go:96-119 | in runs that verify no session twice, a running session that stops is stored nowhere |
| SessionSpec.VerifiedOnceIsTidy | gate/session/session.go:252-270 | in those runs every session is stored under its own id, and verified unless it stopped |
| Sessions.Session.OnStop | gate/session/session.go:96-119 | stops once: flag, link and the manager's map and counter as stated field by field, also in the middle of an add |
| Sessions.Session.OnVerify | gate/session/session.go:252-270 | user id 0 is an error; success sets the id and queues the session; failure only clears the flag |
| Sessions.SessionMgr.Add | gate/session/session_mgr.go:50-72 | manager and session objects move to the added state; while the clock does not overflow, true exactly if the remembered time is 0 or at least 3000 ms ago; then the session is stored with its time and the previous one stopped, else it is stopped itself |
| Sessions.SessionMgr.DelSession | gate/session/session_mgr.go:87-96 | removes and counts down exactly if a session is stored under a non-zero id |
| Sessions.SessionMgr.StopSession | gate/session/session_mgr.go:74-85 | the session stored under a non-zero id is stopped; otherwise nothing changes |
| Sessions.SessionMgr.Drain | gate/session/session_mgr.go:36-40 | the manager's loop adds the waiting sessions in order |
| FrameSpec.UintOfPut | gate/connect/tcp/connect.go:95-99 | the head reads back as the length exactly if the length fits it, in both byte orders |
| FrameSpec.PutOfUint | gate/connect/tcp/connect.go:124-129 | every head is the one written for the length it reads as |
| FrameSpec.FrameLayout | gate/connect/tcp/connect.go:95-101 | a frame byte by byte: the length with its most significant byte first or last, then the payload |
| FrameSpec.ReceiveLayout | gate/connect/tcp/connect.go:110-148 | receiving in terms of the input's bytes: the size in the head, the payload slice, the rest, and each error |
| FrameSpec.MessagesAre | gate/connect/tcp/connect.go:149-155 | the messages are the unmarshalled payloads up to the first that is none |
| FrameSpec.ReceivesFrameIff | gate/connect/tcp/connect.go:86-156 | a sent payload is received, with nothing beyond it consumed, exactly if its length fits the head; otherwise a shorter payload or an error is |
| FrameSpec.StreamRoundTripIff | gate/connect/tcp/connect.go:86-156 | accepted payloads written as one stream are received as exactly that list exactly if all lengths fit, and then no byte is left |
| FrameSpec.AcceptedFitIff | gate/connect/tcp/connect.go:92-94 | all payloads the sender accepts fit exactly if the packet size is below head size plus head capacity |
| FrameSpec.ReceivedWasFrame | gate/connect/tcp/connect.go:105-156 | what is received could have been sent, and sending it gives the consumed bytes |
| FrameSpec.StreamOfReceived | gate/connect/tcp/connect.go:105-156 | any input is the frames of what was received followed by the bytes where receiving fails |
| FrameSpec.CutStream | gate/connect/tcp/connect.go:110-148 | a stream cut after any byte gives exactly the payloads whose frames are complete |
| TcpConnect.PutUint16 | gate/connect/tcp/connect.go:95-96 | writes the two bytes of a 16-bit length in either byte order and no other |
| TcpConnect.PutUint32 | gate/connect/tcp/connect.go:97-99 | writes the four bytes of a 32-bit length in either byte order and no other |
| TcpConnect.Truncated16 | gate/connect/tcp/connect.go:96 | converting the length to 16 bits cuts off exactly what a two-byte head has no place for |
| TcpConnect.Connect.OnSend | gate/connect/tcp/connect.go:86-103 | writes the head bytes of the length in the connection's byte order and then the payload itself, exactly if open and the size fits a packet, and nothing otherwise |
| FrameSpec.MessagesOfPayloads | gate/connect/tcp/connect.go:149-155 | receiving messages until the first error gives the messages of the received payloads up to the first that is none |
| FrameSpec.MessagesComeBack | gate/connect/tcp/connect.go:149-155 | unmarshalling a list of marshalled messages gives the list, if unmarshalling undoes marshalling on each |
| TcpConnect.Connect.OnReceive | gate/connect/tcp/connect.go:105-156 | unmarshals the bytes after the head, as many as the head says, and leaves the rest; or the error of the head, the size, the payload or the unmarshalling |
| TcpConnect.Connect.ReceiveLoop | gate/session/session.go:168-188 | the session's loop returns every message up to the first error |
| TcpConnect.Connect.SendLoop | gate/session/session.go:228-237 | writes the frames of the accepted payloads in order |
| TcpConnect.AcceptedConcat | gate/connect/tcp/connect.go:92-94 | of a list of payloads exactly those that are neither empty nor too long are sent, in order |
| TcpConnect.SendAndReceiveMessages | gate/connect/tcp/connect.go:86-156 | with a packet size that fits the head, the receiver's loop returns exactly the messages that are small enough when marshalled, in order |
| TcpConnect.SendAndReceive | gate/connect/tcp/connect.go:86-156 | end to end on bare payloads, the receiver's loop returns what the sender accepted exactly if all lengths fit, and always if the packet size fits the head |

## Left out

- The members Point, Settle, Descend, ClimbNext, ClimbPrev, RelinkLeft, RelinkRight, SetColor, PushRedUp, RotateTowards, TurnAway, RaiseFarNephew, ShiftColors, SpliceOut, RepairAround, Unlink, CopyPredecessor, FinishPut, FinishRemove, Place, PlaceAll, Clear and ClearAll (of the ring), MakeRing, GrowRing, ShrinkRing, AddToRing, RemoveFromRing, ServiceOf, Insert, HandleEvent, StoreIn, DeleteIn, PutSize, ReadSize, MakeRoom, Admit, LastAdd, TakeNext, SendOrDrop and CloseLink each hold a part of one source body; the source has no such functions. SetTree, Commit, Adopt and Record change ghost state only, and Exchange joins two connections.
- The loop flag of `Put` and the gotos of the iterator are written as returns; `Keys` and `Values` share one scan instead of each filling an array.
- Comparing equal is being equal here: a comparator that is zero on different keys is outside `IsTotalOrder`.
- `addInt` and `removeInt` of the ring and `Destroy` of a service, which are not used: `removeInt` drops a member whose other ids may stay, and `Destroy` empties the proxies without clearing the ring.
- `StopAllSession` of the manager, which runs at shutdown only: it counts each session down again after its `OnStop` has.
- `CheckRoute` and the message-to-service table of `getService`: a lookup each, the first against a name that is never set.
- CRC32 and its scratch buffer: the hash is a parameter, and that ids do not collide is a hypothesis only where it is needed.
- `filepath.Dir` and the parsing of the configured service names: the directory function and the resulting table are parameters.
- etcd, NATS, websocket, TLS, HTTP, logging, timers, callbacks and channels to subscribers: events, payloads and clock readings are given as data.
- The message format: marshalling and unmarshalling are parameters, and where messages are to come back the one undoes the other.
- Read and write deadlines and failing writes: a write delivers all of its bytes; the input ends where the given bytes end.
- Head sizes other than 2 and 4: the source writes a 32-bit length for any of them.
- Concurrent `DelSession`, `OnStop` and verification: the session manager is modelled one operation at a time; only the registry's readers are interleaved.
- The capacity of the manager's channel, kick messages, broadcasts, heartbeats and packet counters of a session.
- `String`, JSON and the other comparators of the containers: library wrappers or one-branch facts.
- RegistrySpec.RouteById: for services that are not hash-routed it looks up `route_` and the id, which no registry key matches; it is modelled as written, with no positive property.
