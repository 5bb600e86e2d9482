# ChwellCore in Dafny

A Dafny 4 model of the stateful cores of ChwellCore, a C++ game server library, with proofs of what
they are for. `dafny verify dfyconfig.toml` checks everything.

- **Timer wheel** (`TimerFiling.dfy`, `TimerWheel.dfy`, `TimerWalk.dfy`). Two to four layers of slots with task objects
  in them, filing by delay, rounds, cascades with nested rollovers, repeat timers, cancellation, also
  from callbacks. The clock is explicit and the n-th tick runs at n times the base tick. What a
  callback asks of the wheel is a function of the timer and the number of callbacks run so far,
  otherwise arbitrary. The main result is `Fate`: every timer fires at exactly the time its arming
  determines, whatever else the wheel holds, a one-shot once at most, never after cancellation, and no
  timer is lost; that time is written out for every delay (`RanAt`, `RanAbove`, `RanBeyond`). The loop
  over a slot need not end; the methods follow it for a given number of iterations and their
  contracts hold wherever it is left, so that nothing is assumed of callbacks. Each iteration is a step
  of an abstract walk of the slot's entries, about which it is proved when it ends.
- **Area of interest** (`GridAoi.dfy`, `CrossListAoi.dfy`). The cell index with its event stream, and
  the two intrusive sorted lists with real `prev` and `next` pointers, both equal to a scan of all
  entities after every operation.
- **Load balancing** (`WeightedRoundRobin.dfy`, `ConsistentHash.dfy`). Exact periodicity and fairness
  of smooth weighted round robin; sorted ring, clockwise successor and minimal movement of keys for
  consistent hashing, for an arbitrary hash function.
- **Framing** (`Framing.dfy`, `Protocol.dfy`, `Codec.dfy`). Decoders over a buffer with a head index
  and lazy compaction; their results do not depend on how the stream was cut, and they invert the
  encoders. The varint is the base-128 varint of the Protocol Buffers encoding specification.
- **RPC** (`Rpc.dfy`, `RpcSystem.dfy`). Client and server objects over that framing, and both joined by
  two byte streams as a step system. Delivered in whatever pieces, timed out and disconnected in
  between, callbacks get their own answers and run exactly once.
- **Asynchronous storage** (`AsyncStorage.dfy`). Submitters, workers and shutdown around a bounded
  queue as interleaved atomic steps over an arbitrary storage that may throw, and the adapter object
  whose lock regions take those steps.
- **Documents** (`Document.dfy`). Printer and parser of the escaped text form without YAML.

Source files that change state in place are modelled by classes; each method is proved against a
function of the old state, and the laws are lemmas about those functions or invariants of all methods.

Where the code does not meet the plain property, the exact condition is proved:

- A timer that a callback arms for less than the base tick, when its own task was the last of the slot,
  waits a whole turn: `ArmedInCallbackIff`, `StrandedRunLate`, and `StrandedInput` for one input.
- A delay beyond the range of the wheel that is due to the millisecond when the last layer lets go of it
  can be a turn of layer 0 late: `RanBeyond`.
- Timers below the base tick can make the walk of a slot endless: `SlotEndsIff`, `WalkEndsIff`, and
  `EndlessInput` for one input.
- Length fields that do not hold the length: `ReadBackIff`, `VarintReadBackIff`, `LengthReadBackIff`.
- A 4-byte header of 2^32-4 or more passes the length check, which is on a 32-bit sum. Decode then reads
  past its buffer, or does not get on if the header is 2^32-4 and all those bytes are there:
  `OverrunIff`, `EndlessIff`, `FeedWrongIff`, and `OverrunInput` for one input.
- Clashing node hashes of two instances: adding moves keys between them (`AddSelectsIff`, `ClashInput`),
  selections depend on how ties are sorted (`SelectAlikeIff`, `RestoringIff`), and hashes have two owners
  (`OneOwnerIff`).
- Request ids come from a 32-bit counter, and a request still pending under a reused id is overwritten:
  `ExactlyOnceIff`, `LostInput`, and `LateAnswer` for an answer that finds the wrong call.
- Answers that do not fit a frame: `AnsweredIff`.
- An empty key is printed but not parsed: `RoundTripIff`.

The comment above `escape` in
`src/storage/orm/document.cpp` speaks of escaping newlines and equals signs in values; the code also escapes
backslashes, and keys, and the model follows the code.

## Model

| member | source | states |
|---|---|---|
| TimerWheels.TimerWheel.Fate | src/core/timer_wheel.cpp:138-273 | In every reachable state, also inside a tick, and whatever callbacks do: each timer ever issued is cancelled, waiting or a one-shot that has fired; every callback run was due, that is, armed first or one interval after the run before, and came exactly at the time that its arming alone determines; a waiting timer has not missed that time; a one-shot runs once at most, a cancelled timer never after its cancellation |
| TimerWheels.TimerWheel.RanAt | src/core/timer_wheel.cpp:148-153 | A delay below a turn of layer 0 ran floor(delay / tick) base ticks after the first one not before its arming, so less than a base tick early and at most one late; a stranded timer ran a whole turn after it |
| TimerWheels.TimerWheel.RanAbove | src/core/timer_wheel.cpp:138-248 | A delay in the range of a higher layer was handed down at the visit its whole slots lead to, and ran at the next base tick if nothing was left then, else as many base ticks later as the rest is long, or one more than as many whole slots of a layer between |
| TimerWheels.TimerWheel.RanBeyond | src/core/timer_wheel.cpp:138-248 | A delay beyond the range stayed in the last layer for whole slots and then ran as its rest says; if it was due to the millisecond after more than a turn of that layer, a stale rounds_left made it a turn of layer 0 late |
| TimerWheels.TimerWheel.RanAgain | src/core/timer_wheel.cpp:189-206 | A repeat timer with an interval below a turn of layer 0 ran again exactly floor(interval / tick) base ticks after each run |
| TimerWheels.AddedRunsAt | src/core/timer_wheel.cpp:65-84 | Of a whole run: a timer added for less than a turn of layer 0 runs at no other time than floor(delay / tick) base ticks after the first one not before the call, and has run once that is past unless it was cancelled |
| TimerFiling.RunsInRange | src/core/timer_wheel.cpp:138-248 | The closed form of the running time for every delay in the range of the wheel |
| TimerFiling.RunsBeyond | src/core/timer_wheel.cpp:138-248 | The same for every delay beyond it |
| TimerWheels.TimerWheel.FiledExactly | src/core/timer_wheel.cpp:138-166 | The slot and rounds a task is filed with, at arming or by a cascade, make it run at the time computed from its arming |
| TimerWheels.TimerWheel.ArmedInCallbackIff | src/core/timer_wheel.cpp:138-217 | In every state, a timer armed by a callback is filed for its window, unless its delay is below the base tick and the iterator has reached the end of the slot; then it is so if and only if a layer has two slots |
| TimerWheels.TimerWheel.StrandedRunLate | src/core/timer_wheel.cpp:168-217 | A timer armed that way has run within two base ticks of its expiry if and only if a layer has two slots; its window in `Fate` is a turn after its expiry, less at most one base tick |
| TimerWheels.Run | src/core/timer_wheel.cpp:65-288 | For any list of calls with time passing in between and any callbacks: the above holds at the end or wherever a tick does not end, every call armed its timer at its time for its delay, counting from the first base tick not before it, and a cancelled timer is on record as such |
| TimerWheels.ElapseTo | src/core/timer_wheel.cpp:275-288 | Time passes only through ticks and none is skipped; without intervals and callback delays below the base tick it always gets to its end |
| TimerWheels.TimerWheel.Tick | src/core/timer_wheel.cpp:250-273 | One base tick with all its rollovers, if the walk of its slot ends, keeps the invariant: every live timer has one task object, in one slot of one layer, found through the map, filed to fire in its window; it ends exactly if the walk of its slot does, and the callbacks run in it are those of that walk, in its order and at its time |
| TimerWheels.TimerWheel.ProcessSlot | src/core/timer_wheel.cpp:168-219 | Walking the slot keeps the invariant for any callbacks; it ends within so many iterations exactly if the abstract walk of the same entries does, and runs the callbacks of the same timers in the same order; if it ends no task due now is left in the slot, and without intervals and callback delays below the base tick it ends within one iteration a task |
| TimerWheels.TimerWheel.SlotEndsIff | src/core/timer_wheel.cpp:168-219 | Some number of iterations is enough to end it if and only if from some iteration on no callback run in it arms below the base tick and every due repeat timer with an interval below the base tick in the slot is cancelled by such a callback |
| TimerWheels.TimerWheel.ProcessTask | src/core/timer_wheel.cpp:172-218 | One iteration takes the entries of the slot, the iterator and the counters of the wheel exactly one step of the abstract walk further, with whatever the callback arms and cancels, and logs exactly the callback that step runs |
| TimerWheels.TimerWheel.FireOneShot | src/core/timer_wheel.cpp:189-217 | The one-shot at hand is logged once with the time and what it was armed for and its task is gone |
| TimerWheels.TimerWheel.FireRepeat | src/core/timer_wheel.cpp:189-206 | A repeat timer is logged and re-armed under the same id with a new task, one interval from now; an interval below the base tick puts it at the end of the slot being walked |
| TimerWheels.TimerWheel.FiresInTime | src/core/timer_wheel.cpp:182-190 | A task reached with no rounds left is reached at the time its arming determines, and within its window |
| TimerWheels.TimerWheel.Discard | src/core/timer_wheel.cpp:176-180 | A cancelled task leaves the wheel without firing |
| TimerWheels.TimerWheel.SitOut | src/core/timer_wheel.cpp:182-187 | A task with rounds left stays for one more turn and is still on time |
| TimerWheels.TimerWheel.RunCallback | src/core/timer_wheel.cpp:208-217 | Whatever timers a callback adds and cancels, the invariant holds, and the slot and the iterator become what the requests make of them one by one: what they append is still to be walked unless the iterator is at the end |
| TimerWheels.TimerWheel.Serve | src/core/timer_wheel.cpp:65-122 | Every request of a callback is armed for its delay from now, and marked as stranded exactly if the delay is below the base tick and the iterator is at the end; the slot changes as the abstract walk says |
| TimerWheels.TimerWheel.Cascade | src/core/timer_wheel.cpp:221-248 | Emptying a slot into the layers below keeps every moved task on time and nothing stays behind for this turn |
| TimerWheels.TimerWheel.CascadeAndAdvance | src/core/timer_wheel.cpp:258-271 | A cascade with its advance rolls over exactly when the layer above is due |
| TimerWheels.TimerWheel.MoveDown | src/core/timer_wheel.cpp:234-247 | A moved task is dropped if cancelled, else refiled below and still on time |
| TimerWheels.TimerWheel.LayerBelow | src/core/timer_wheel.cpp:143-157 | A cascaded task lands in a lower layer, or in the last layer away from the slot being emptied |
| TimerWheels.TimerWheel.AddTaskToWheel | src/core/timer_wheel.cpp:138-166 | The task is filed in the first layer whose range exceeds its delay, at the slot and with the rounds that make it run at exactly the time its arming determines |
| TimerFiling.LayerFor | src/core/timer_wheel.cpp:143-157 | The layer is the first whose range exceeds the delay, or the last |
| TimerFiling.FiledOnTime | src/core/timer_wheel.cpp:148-153 | Slot and rounds computed from the delay bracket the expiry, in every layer and also for delays beyond the last range |
| TimerFiling.OverdueOnTime | src/core/timer_wheel.cpp:240-243 | A task overdue at its cascade still fires in time from the current base slot |
| TimerFiling.SkippedOnTime | src/core/timer_wheel.cpp:182-185 | Giving up one round for one turn of the base layer keeps a task on time |
| TimerFiling.StrandedIff | src/core/timer_wheel.cpp:148-153 | A delay below the base tick that waits a whole turn is in its window if and only if a layer has two slots |
| TimerWheels.TimerWheel.AddTimer | src/core/timer_wheel.cpp:65-84 | Only a positive delay with a callback makes a timer; it gets the next id and expiry now plus delay; the slot being walked is left alone unless the delay is below the base tick |
| TimerWheels.TimerWheel.AddRepeatTimer | src/core/timer_wheel.cpp:86-105 | The same for repeat timers |
| TimerWheels.TimerWheel.CancelTimer | src/core/timer_wheel.cpp:107-122 | A valid handle makes its timer no longer pending, for ever, and no other timer is touched |
| TimerWheels.TimerWheel.IsTimerValid | src/core/timer_wheel.cpp:124-136 | True exactly for a valid handle of a pending timer |
| TimerWheels.TimerWheel.NotYetLate | src/core/timer_wheel.cpp:138-273 | No task in the wheel has missed the time it runs at, nor its window |
| TimerWheels.TimerWheel.constructor | src/core/timer_wheel.cpp:8-20 | A new wheel satisfies the invariant, layer k having slots of tick times size to the k |
| TimerWalks.WalkEndsIff | src/core/timer_wheel.cpp:168-219 | Whatever callbacks arm and cancel, the walk of a slot ends if and only if from some step on none of them arms below the base tick and every due repeat timer with an interval below the base tick in the slot is cancelled by a callback run in the walk |
| TimerWalks.SilentWalkEndsIff | src/core/timer_wheel.cpp:168-219 | If callbacks leave the wheel alone, it ends if and only if no due uncancelled repeat timer in the slot has an interval below the base tick |
| TimerWalks.CancelsItself | src/core/timer_wheel.cpp:189-217 | A repeat timer below the base tick whose callback cancels it does not keep the walk going |
| TimerWalks.StrandedInput | src/core/timer_wheel.cpp:189-217 | Base tick 100, 60 slots, a one-shot alone in its slot whose callback arms a timer for 50: the walk ends without seeing it and it misses its window |
| TimerWalks.EndlessInput | src/core/timer_wheel.cpp:189-217 | Base tick 100: the walk of a slot with a repeat timer of 50 and a silent callback does not end |
| TimerWalks.RunsInOrder | src/core/timer_wheel.cpp:172-218 | If nothing keeps the walk going, the due timers of the slot run once each from front to back, less those that a callback run before has cancelled |
| TimerWalks.LandsHereWhenShort | src/core/timer_wheel.cpp:143-153 | A re-armed timer lands in the slot being walked exactly when its interval is below the base tick |
| GridAois.AlwaysOnMap | src/aoi/aoi.cpp:32-35 | Every position, off the map or not, belongs to a cell of the map |
| GridAois.CellIff | src/aoi/aoi.cpp:32-35 | The cell of a position is the one whose column and row it lies in by the grid size, the first and the last reaching out beyond the map |
| GridAois.CountsCover | include/chwell/aoi/aoi.h:75-76 | The columns and rows cover the map and none lies wholly beyond it |
| GridAois.SightInCoordinates | src/aoi/aoi.cpp:32-52 | Entities on the map at most the view range in cell sizes apart on both axes see each other; those one cell size farther apart on some axis do not |
| GridAois.ViewIsNear | src/aoi/aoi.cpp:42-52 | The clamped view rectangle holds exactly the map cells within the view range of the centre on both axes |
| GridAois.GridIndexOk | src/aoi/aoi.cpp:23-25 | Cell indexes are in range and distinct for distinct cells |
| GridAois.GridAoi.AddEntity | src/aoi/aoi.cpp:54-106 | Refuses id 0 and known ids, else stores the entity; to each other entity in sight one ENTER with the new id and position is sent, and no other event; afterwards the folded ENTER and LEAVE events are exactly the pairs of entities that see each other and the cells agree with the positions |
| GridAois.GridAoi.RemoveEntity | src/aoi/aoi.cpp:108-150 | Removes a known entity; each entity in sight is sent exactly one LEAVE; the folded events still are exactly the pairs that see each other |
| GridAois.GridAoi.UpdateEntity | src/aoi/aoi.cpp:152-299 | Moves a known entity; on a change of cell those in sight of the old place only and the entity are sent one LEAVE each, those in sight of the new place only one ENTER each with the right positions, those in sight of both one MOVE; within a cell only the others of that cell are sent a MOVE; the fold again is exactly the pairs that see each other |
| GridAois.GridAoi.TellViews | src/aoi/aoi.cpp:217-296 | The three walks reach exactly those near the old place only, near the new place only and near both |
| GridAois.GridAoi.TellChange | src/aoi/aoi.cpp:217-296 | Old view minus new and new view minus old lose and gain exactly the pairs that change |
| GridAois.GridAoi.Walk | src/aoi/aoi.cpp:219-275 | A walk over a rectangle, less another one, sends the events about every other entity in it once and no others |
| GridAois.GridAoi.Tell | src/aoi/aoi.cpp:225-291 | The events about one other entity, with their watchers, targets and positions |
| GridAois.GridAoi.Relocate | src/aoi/aoi.cpp:209-215 | After a change of cell the cells again hold exactly the entities whose clamped positions lie in them |
| GridAois.GridAoi.GetEntityIdsInView | src/aoi/aoi.cpp:330-343 | Returns exactly the ids a scan of all entities by cell distance would, each once |
| GridAois.GridAoi.GetEntityIdsInViewOf | src/aoi/aoi.cpp:359-366 | The same around a known watcher, nothing for an unknown one |
| CrossListAois.CrossListAoi.AddEntity | src/aoi/aoi.cpp:470-490 | Refuses id 0 and known ids, else the entity is a node of both sorted lists |
| CrossListAois.CrossListAoi.RemoveEntity | src/aoi/aoi.cpp:570-582 | The entity leaves both lists and the map, all others stay |
| CrossListAois.CrossListAoi.UpdateEntity | src/aoi/aoi.cpp:584-604 | The entity is taken out, moved and put back; both lists are sorted again |
| CrossListAois.CrossListAoi.InsertToXList | src/aoi/aoi.cpp:492-518 | The node joins the x list, which stays doubly linked, without a cycle and sorted |
| CrossListAois.CrossListAoi.InsertToYList | src/aoi/aoi.cpp:520-546 | The same for the y list |
| CrossListAois.CrossListAoi.AttachX | src/aoi/aoi.cpp:496-517 | Exactly the two neighbours and possibly the head are relinked |
| CrossListAois.CrossListAoi.RemoveFromXList | src/aoi/aoi.cpp:548-557 | The node leaves the x list, which stays doubly linked and sorted |
| CrossListAois.CrossListAoi.RemoveFromYList | src/aoi/aoi.cpp:559-567 | The same for the y list |
| CrossListAois.CrossListAoi.GetEntitiesInView | src/aoi/aoi.cpp:617-635 | The walk with its early break returns exactly the entities within the view range on both axes, each once |
| CrossListAois.CrossListAoi.GetEntitiesInViewOf | src/aoi/aoi.cpp:606-615 | The same around a known watcher, nothing for an unknown one |
| CrossListAois.CrossListAoi.AllPassed | src/aoi/aoi.cpp:620-632 | When the walk breaks off, every entity in range has been passed |
| WeightedRoundRobin.Period | src/loadbalance/load_balancer.cpp:105-151 | Over W selections from the cleared state, W the total weight, each instance is chosen exactly its weight and all current weights are back at 0 |
| WeightedRoundRobin.AnyWindow | src/loadbalance/load_balancer.cpp:105-151 | The same counts over any W consecutive selections of a run from the cleared state |
| WeightedRoundRobin.Repeats | src/loadbalance/load_balancer.cpp:105-151 | The state repeats with period W |
| WeightedRoundRobin.Fair | src/loadbalance/load_balancer.cpp:123-147 | After any t selections an instance of weight w was chosen less than t*w/W + 1 and more than t*w/W - (n-1) times |
| WeightedRoundRobin.WeightlessNeverChosen | src/loadbalance/load_balancer.cpp:123-147 | An instance of weight 0 is never chosen |
| WeightedRoundRobin.AfterBalanced | src/loadbalance/load_balancer.cpp:123-147 | Current weights always sum to 0 and each stays above -W |
| WeightedRoundRobin.NextBalanced | src/loadbalance/load_balancer.cpp:123-147 | One selection keeps sum and bound |
| WeightedRoundRobin.Account | src/loadbalance/load_balancer.cpp:123-147 | A current weight is what the instance is owed: t times its weight less W for each time it was chosen |
| WeightedRoundRobin.Pick | src/loadbalance/load_balancer.cpp:125-144 | The first instance with the largest raised weight is chosen |
| WeightedRoundRobin.WeightedRoundRobinLoadBalancer.SelectInstance | src/loadbalance/load_balancer.cpp:83-152 | One call raises each listed instance by its weight, as often as it is listed, takes the first position whose current weight is largest when it is reached and makes it pay the total weight; without duplicates that is exactly one selection on vectors; none without instances or with a total weight of 0 or less; a single instance is returned without touching the weights |
| WeightedRoundRobin.DistinctSelection | src/loadbalance/load_balancer.cpp:123-151 | On lists without duplicates the selection over the map is the selection on vectors that the laws are about |
| WeightedRoundRobin.WeightedRoundRobinLoadBalancer.Choose | src/loadbalance/load_balancer.cpp:123-151 | The loop over the map of current weights takes the first largest weight it sees and leaves every current weight raised and the chosen one paid down, duplicates included |
| WeightedRoundRobin.WeightedRoundRobinLoadBalancer.TotalWeight | src/loadbalance/load_balancer.cpp:105-116 | The sum of the configured weights, 1 where none is set; missing current weights are entered as 0 |
| WeightedRoundRobin.WeightedRoundRobinLoadBalancer.UpdateInstances | src/loadbalance/load_balancer.cpp:154-162 | Replaces the instances and clears all current weights |
| WeightedRoundRobin.WeightedRoundRobinLoadBalancer.SelectMany | src/loadbalance/load_balancer.cpp:83-152 | Of the ids returned by a run of calls, any T in a row, T the sum of the configured weights (1 where none is set), hold each instance exactly its weight times |
| WeightedRoundRobin.GainIs | src/loadbalance/load_balancer.cpp:126-137 | A round raises an instance by its configured weight, 1 where none is set, as often as it is listed |
| ConsistentHashing.ConsistentHashLoadBalancer.AddInstance | src/loadbalance/consistent_hash.cpp:33-60 | The ring gains exactly the nodes 0 to virtual nodes times weight of the instance, each at the hash of its own id; unless two instances clash on the old ring, what is selected for a key changes only to the new instance |
| ConsistentHashing.NodesOfAre | src/loadbalance/consistent_hash.cpp:21-24 | Node k has the id made of the instance's name, a # and the decimal of k, and that id's hash |
| ConsistentHashing.NodeIdsDiffer | src/loadbalance/consistent_hash.cpp:21-24 | Different nodes of an instance have different ids |
| ConsistentHashing.DecimalStandsFor | src/loadbalance/consistent_hash.cpp:21-24 | The decimal of a number has only digits, no leading zero, and stands for it |
| ConsistentHashing.ConsistentHashLoadBalancer.RemoveInstance | src/loadbalance/consistent_hash.cpp:62-91 | The instance's nodes leave the ring; what is selected changes only for keys of the removed instance, with clashes or without |
| ConsistentHashing.ConsistentHashLoadBalancer.SelectInstance | src/loadbalance/consistent_hash.cpp:93-120 | None exactly for an empty ring, else the instance of a node at or after the hash of the key with none between, or, if all lie before it, of the first one: the nearest clockwise |
| ConsistentHashing.ConsistentHashLoadBalancer.LowerBound | src/loadbalance/consistent_hash.cpp:107-113 | The binary search splits the ring at the hash |
| ConsistentHashing.ConsistentHashLoadBalancer.AddThenRemove | src/loadbalance/consistent_hash.cpp:33-91 | Adding and removing a fresh instance leaves the same nodes and, unless two instances clash, the same selection for every key |
| ConsistentHashing.AddSelectsIff | src/loadbalance/consistent_hash.cpp:33-60 | Adding an instance moves selections only onto it, however equal hashes are sorted, if and only if no two instances clash on the ring it is added to; its own clashes do not matter |
| ConsistentHashing.SelectAlikeIff | src/loadbalance/consistent_hash.cpp:93-120 | All sorted rings of the same nodes select alike if and only if no two instances clash |
| ConsistentHashing.RestoringIff | src/loadbalance/consistent_hash.cpp:33-91 | Adding a fresh instance and dropping it again restores every selection, however equal hashes are sorted, if and only if no two of the others clash |
| ConsistentHashing.RemoveSelects | src/loadbalance/consistent_hash.cpp:80-89 | Dropping an instance from any ring, sorted or not, changes only its own selections |
| ConsistentHashing.ClashInput | src/loadbalance/consistent_hash.cpp:33-60 | Two instances with one node each at hash 5: adding a third at 9 may move a key from the first to the second |
| ConsistentHashing.OneOwnerIff | src/loadbalance/consistent_hash.cpp:93-120 | Every hash has at most one owner if and only if no two instances share a node hash |
| ConsistentHashing.AddMovesOntoNew | src/loadbalance/consistent_hash.cpp:33-60 | Whatever is added, a hash keeps an owner or gets the new instance |
| ConsistentHashing.RemoveMovesOwnOnly | src/loadbalance/consistent_hash.cpp:62-91 | A hash owned by another instance keeps that owner |
| ConsistentHashing.SuccessorIsNearest | src/loadbalance/consistent_hash.cpp:107-118 | The first node at or after the hash, wrapping to the front, is the nearest clockwise |
| ConsistentHashing.OwnerIsSelected | src/loadbalance/consistent_hash.cpp:93-120 | Without a clash the owner of a hash is what is selected for it |
| ConsistentHashing.ConsistentHashLoadBalancer.PushNodes | src/loadbalance/consistent_hash.cpp:41-55 | Both vectors receive the virtual nodes of the instance |
| Framing.DecodeConcat | src/protocol/parser.cpp:18-53 | Bytes that come later change nothing about what was decoded before |
| Framing.ChunksDoNotMatter | src/protocol/parser.cpp:18-53 | Decoding chunk by chunk equals decoding the whole stream, for every cutting |
| Framing.AnyCutDecodes | src/protocol/parser.cpp:18-53 | Any cutting of the encodings of any messages decodes to exactly those messages |
| Framing.CompactPrefix | src/protocol/parser.cpp:8-16 | Compaction keeps the unread bytes, and the consumed prefix left is shorter than 4096 bytes or than the unread bytes |
| Protocol.Serialize | src/protocol/message.cpp:8-26 | Two bytes weigh the command, the more significant first, two the body length cut to 16 bits, then the body |
| Protocol.Deserialize | src/protocol/message.cpp:28-51 | A message exactly if there are four bytes and as many more as the third and fourth weigh; its command and body are what the bytes say |
| Protocol.ReadBackIff | src/protocol/message.cpp:8-51 | A message is read back, whatever follows it, if and only if its body has fewer than 65536 bytes |
| Protocol.ParserInvertsSerialize | src/protocol/parser.cpp:18-53 | Any cutting of serialized messages with bodies below 65536 bytes parses back to them |
| Protocol.Parser.Feed | src/protocol/parser.cpp:18-53 | Returns all messages completed so far and keeps the rest, with head index and compaction |
| Protocol.ParseChunks | src/protocol/parser.cpp:18-53 | A parser fed in chunks does what decoding chunk by chunk does |
| Protocol.MessagesIncremental | src/protocol/parser.cpp:26-48 | A complete frame is found however much follows it |
| Protocol.ConsumedIsParsed | src/rpc/rpc_server.cpp:129-141 | Header plus body sizes of the returned messages add up to exactly the bytes parsed, on every stream |
| Protocol.ParseBuffered | src/rpc/rpc_client.cpp:195-212 | A fresh parser over the accumulated bytes, with the consumed bytes erased, does what one persistent parser does |
| Codec.VarintRoundTrip | src/codec/codec.cpp:110-134 | Parsing inverts appending for every 32-bit number and rejects every strict prefix of a varint |
| Codec.AppendVarint32 | src/codec/codec.cpp:110-116 | Writes the base-128 varint of the number |
| Codec.VarintBytes | src/codec/codec.cpp:110-116 | It has as few bytes as possible; byte i holds the i-th seven bits, the top bit set on all but the last |
| Codec.ParseVarint32 | src/codec/codec.cpp:119-134 | Reads at most five bytes and drops the bits above 32 |
| Codec.ParsedBytes | src/codec/codec.cpp:119-134 | The value of any varint of up to five bytes, the shortest or not, digit by digit and cut to 32 bits |
| Codec.NothingParsed | src/codec/codec.cpp:119-134 | Without a last byte among the first five nothing is parsed |
| Codec.NextVarintIs | src/codec/codec.cpp:158-181 | Its value says how many bytes make the message behind it |
| Codec.VarintReadBackIff | src/codec/codec.cpp:138-181 | A message is read back if and only if its length fits 32 bits |
| Codec.ProtobufCodecInverts | src/codec/codec.cpp:138-181 | Any cutting of varint-framed messages decodes to them |
| Codec.ProtobufCodec.Encode | src/codec/codec.cpp:138-146 | Varint of the length, then the message |
| Codec.ProtobufCodec.Decode | src/codec/codec.cpp:158-181 | Returns all messages completed so far and keeps the rest |
| Codec.LengthReadBackIff | src/codec/codec.cpp:20-57 | A message is read back behind its 4-byte length if and only if it is shorter than 2^32-4 bytes |
| Codec.OverrunHeadIff | src/codec/codec.cpp:38-51 | decode reads past the end of its buffer at a header if and only if the header is 2^32-4 or more and fewer bytes are there than it announces |
| Codec.OverrunIff | src/codec/codec.cpp:32-57 | Decoding a buffer overruns it if and only if it reaches such a header |
| Codec.FeedWrongIff | src/codec/codec.cpp:32-57 | Fed in chunks, the decoder overruns, or goes on for ever, if and only if decoding what has arrived by some cut does, and by no cut before |
| Codec.EndlessHeadIff | src/codec/codec.cpp:38-51 | A complete message moves decode no further if and only if its header is 2^32-4 and all those bytes are there |
| Codec.EndlessIff | src/codec/codec.cpp:32-57 | Decoding a buffer goes on for ever if and only if it reaches such a header |
| Codec.OverrunInput | src/codec/codec.cpp:43-52 | The four bytes FF FF FF FC make decode overrun |
| Codec.FrontDecoded | src/codec/codec.cpp:32-57 | Of the front part of a stream of messages that fit, exactly the first ones are decoded and the rest is not disturbed |
| Codec.LengthHeaderCodecInverts | src/codec/codec.cpp:20-57 | Any cutting of length-framed messages below 2^32-4 bytes decodes to them, without overrun |
| Codec.LengthHeaderCodec.Encode | src/codec/codec.cpp:20-30 | Four bytes weigh the length, the most significant first, then the message |
| Codec.HeadIs | src/codec/codec.cpp:38-51 | At a header that weighs n below 2^32-4, decode waits for n more bytes and takes exactly them |
| Codec.LengthHeaderCodec.Decode | src/codec/codec.cpp:32-57 | For any bytes: all messages completed so far and the rest kept, or the messages before the loop overruns the buffer or stops getting on, and which of the two |
| Rpc.BodyRoundTrip | src/rpc/rpc_client.cpp:17-39 | The id is written in four bytes, the most significant first, and decoding gives back the id and the payload |
| Rpc.ExactlyOnceIff | src/rpc/rpc_client.cpp:106-311 | In every run, whatever bytes arrive and however sweeps and disconnects come in between: every accepted call is pending and not called back, or not pending and called back once, if and only if no call was made while a request was pending under the 32-bit id it gets |
| Rpc.StepSane | src/rpc/rpc_client.cpp:106-311 | No step runs a callback twice or early, and a call is lost exactly if a later one overwrites it under its id, then for good |
| Rpc.SweptIff | src/rpc/rpc_client.cpp:279-311 | A sweep fails the callback of a call exactly if it waits and its deadline has come, and changes nothing for the others |
| Rpc.FewCallsAreOnce | src/rpc/rpc_client.cpp:144-154 | Before 2^32 calls no id is reused |
| Rpc.LostInput | src/rpc/rpc_client.cpp:144-154 | A first call still pending when 2^32 more have been made is lost |
| Rpc.DroppedForGood | src/rpc/rpc_client.cpp:241-256 | After a disconnect nothing is pending and no callback runs again |
| Rpc.RpcClient.Call | src/rpc/rpc_client.cpp:106-160 | A call turned away fails at once and sends nothing; an accepted one is pending under the id of a wrapping 32-bit counter with its deadline, and its frame is sent; exactly once is kept if and only if that id was free |
| Rpc.RpcClient.OnMessage | src/rpc/rpc_client.cpp:195-239 | Every complete answer is matched with its pending request, short bodies and unknown ids are ignored, the rest of the bytes is kept |
| Rpc.RpcClient.HandleResponse | src/rpc/rpc_client.cpp:214-238 | A pending request is removed and its callback run once with the payload |
| Rpc.RpcClient.OnDisconnect | src/rpc/rpc_client.cpp:241-256 | The callback of every waiting call is run once more, with failure, and of no other; nothing stays pending |
| Rpc.RpcClient.CleanupExpiredRequests | src/rpc/rpc_client.cpp:279-311 | The callback of a waiting call is run with failure exactly if its deadline is not after now; exactly the other requests stay pending |
| RpcSystem.RpcServer.HandleMessage | src/rpc/rpc_server.cpp:67-147 | Answers every request completed by the data, in order, on its own connection, and keeps the rest of the bytes |
| RpcSystem.RpcServer.HandleRequest | src/rpc/rpc_server.cpp:88-126 | The first four bytes of the body are echoed in front of what the handler of the command makes of the rest; a shorter body goes to the handler as it is; without a handler only the prefix goes back |
| RpcSystem.RpcServer.HandleDisconnect | src/rpc/rpc_server.cpp:58-65 | Forgets the buffered bytes of the connection |
| RpcSystem.OwnAnswers | src/rpc/rpc_client.cpp:106-311 | For any cutting of both byte streams, with any other calls, sweeps and disconnects before and after, if every call fits the frames and gets a free id: the callback of a call is still to be run, or has been run once, with failure or with exactly what the handler of its method makes of its payload (nothing for an unknown method) |
| RpcSystem.OwnAnswersOfFew | src/rpc/rpc_client.cpp:106-311 | The same with bounds alone: fewer than 2^32 steps, no payload and no reply above 65531 bytes |
| RpcSystem.AnsweredIff | src/rpc/rpc_server.cpp:106-119 | The callback of a call whose request fits receives its answer if and only if the answer has at most 65531 bytes |
| RpcSystem.AlwaysShort | src/rpc/rpc_client.cpp:195-239 | Whatever bytes arrive, no callback ever gets more than 65531 bytes |
| RpcSystem.FewCallsAreRegular | src/rpc/rpc_client.cpp:144-154 | Before 2^32 calls every id is free |
| RpcSystem.LateAnswer | src/rpc/rpc_client.cpp:214-238 | An answer that comes when its own call has been given up and 2^32 calls later another waits under the same id runs the callback of that other call |
| RpcSystem.NextKeeps | src/rpc/rpc_server.cpp:67-147 | Every step of client, server or network, a call only if it fits the frames and gets a free id, keeps the correlation of requests, answers and callbacks |
| RpcSystem.FrontOfStream | src/rpc/rpc_server.cpp:67-86 | Of a stream of requests delivered in part, exactly the first ones are decoded and the rest is not disturbed |
| RpcSystem.RespondRightly | src/rpc/rpc_client.cpp:214-238 | Answers that find their own call or none under their id run callbacks with the right responses |
| AsyncStorage.EveryPromiseOnce | src/storage/async_storage_adapter.cpp:16-244 | In every interleaving the storage goes through the executed operations one after the other; a promise is not set while its call waits, is queued or runs, and is set exactly once after: to the reply the storage returned at that operation's turn, to a failure carrying the exception's text (false for exists, a single entry for mget), or to the refusal, and that only after a stop or without a storage |
| AsyncStorage.CallsAreSubmitted | src/storage/async_storage_adapter.cpp:126-244 | The calls are the operations submitted, in order |
| AsyncStorage.QueueStaysBounded | src/storage/async_storage_adapter.cpp:103-120 | The queue never exceeds a limit that is set |
| AsyncStorage.WaitsOnlyIfFull | src/storage/async_storage_adapter.cpp:103-142 | In every reachable state a new call waits only if the queue is at its limit and is refused only after a stop or without a storage |
| AsyncStorage.OneWorkerIsSequential | src/storage/async_storage_adapter.cpp:16-120 | With one worker the storage and the promises are those of running the accepted operations one after the other in the order of acceptance, which without a limit is the order of the calls |
| AsyncStorage.NothingLeftUnrun | src/storage/async_storage_adapter.cpp:69-101 | When all workers, at least one, have exited, the queue is empty, every accepted task has run and been answered, and a call without an answer is still waiting in enqueue |
| AsyncStorage.EveryStepDrains | src/storage/async_storage_adapter.cpp:69-120 | After a stop every step that does anything brings the end nearer |
| AsyncStorage.SomeStepDrains | src/storage/async_storage_adapter.cpp:84-120 | After a stop, as long as anything is left, some worker or waiting submitter can take a step |
| AsyncStorage.NextKeeps | src/storage/async_storage_adapter.cpp:69-244 | Every step keeps each call's task in exactly one place, the queue first in first out, the limit, and the storage equal to a replay of the executed tasks |
| AsyncStorage.Refusal | src/storage/async_storage_adapter.cpp:126-244 | A refused operation gets a failure of its own type, one per key for mget |
| AsyncStorage.Thrown | src/storage/async_storage_adapter.cpp:16-51 | An operation that throws gets a failure of its own type, a single one for mget |
| AsyncStorage.AsyncStorageAdapter.constructor | src/storage/async_storage_adapter.cpp:59-67 | The workers start idle on an empty queue |
| AsyncStorage.AsyncStorageAdapter.AsyncCall | src/storage/async_storage_adapter.cpp:126-244 | A call is refused at once without a storage or after a stop, else queued, or waits if the queue is full |
| AsyncStorage.AsyncStorageAdapter.Enqueue | src/storage/async_storage_adapter.cpp:103-120 | Rejects after a stop, admits if there is room, else blocks |
| AsyncStorage.AsyncStorageAdapter.Wake | src/storage/async_storage_adapter.cpp:108-115 | A woken submitter is rejected after a stop, let in if there is room, else waits on |
| AsyncStorage.AsyncStorageAdapter.WorkerTake | src/storage/async_storage_adapter.cpp:84-98 | A worker takes the front task, also after a stop, and exits only if there is none |
| AsyncStorage.AsyncStorageAdapter.WorkerRun | src/storage/async_storage_adapter.cpp:16-100 | The task runs on the storage and its promise is set to the reply, or to a failure carrying the exception's text |
| AsyncStorage.AsyncStorageAdapter.Destroy | src/storage/async_storage_adapter.cpp:69-78 | Joining ends under every schedule of workers and blocked submitters, with all accepted tasks run and answered |
| Documents.UnescapeEscaped | src/storage/orm/document.cpp:107-133 | Unescaping inverts escaping on every string |
| Documents.ScanEscaped | src/storage/orm/document.cpp:143-170 | The scanner takes an escaped string whole, in key and value: it never splits an escape pair, ends the line or the key inside it |
| Documents.ParsePrinted | src/storage/orm/document.cpp:135-170 | Parsing a printed document gives back every field but one with an empty key, in whatever order it was printed |
| Documents.RoundTripIff | src/storage/orm/document.cpp:135-170 | Printing and parsing is the identity if and only if there is no empty key |
| Documents.ParsedIsStable | src/storage/orm/document.cpp:135-170 | What any text parses to survives being printed and parsed again |
| Documents.NoEmptyKey | src/storage/orm/document.cpp:150-153 | No text parses to a document with an empty key |
| Documents.OneOrder | src/storage/orm/document.cpp:135-141 | The order of printing is determined by the keys, so equal documents print alike |
| Documents.Escape | src/storage/orm/document.cpp:107-117 | The loop escapes as specified |
| Documents.PlainIsItsEscape | src/storage/orm/document.cpp:107-117 | A text is its own escape exactly if it has no backslash, newline or equals sign; these become two characters each |
| Documents.EscapedConcat | src/storage/orm/document.cpp:107-117 | Escaping goes character by character |
| Documents.UnescapedIs | src/storage/orm/document.cpp:119-133 | What unescaping makes of any text, character by character |
| Documents.PlainLine | src/storage/orm/document.cpp:135-141 | A field of plain characters is written as key, equals sign, value and newline |
| Documents.RawLine | src/storage/orm/document.cpp:143-170 | A line as somebody might write it sets the field before its first equals sign to all that is behind it, also without a final newline |
| Documents.IdleLine | src/storage/orm/document.cpp:143-170 | A line without an equals sign, or with nothing before it, sets nothing |
| Documents.AtMostIff | src/storage/orm/document.cpp:135-141 | The order of the keys is that of strings: a prefix first, else the first difference decides |
| Documents.Unescape | src/storage/orm/document.cpp:119-133 | The loop unescapes as specified, a lone backslash at the end included |
| Documents.Document.ToString | src/storage/orm/document.cpp:135-141 | Writes one escaped line per field in the order of the map, and what it writes parses back to all fields but one with an empty key |
| Documents.Document.FromString | src/storage/orm/document.cpp:143-170 | The scanning loop yields what the specification of the scanner says |
| Documents.Document.Reload | src/storage/orm/document.cpp:135-170 | Saving and loading loses only a field with an empty key |
| Documents.Document.SetString | src/storage/orm/document.cpp:47-49 | Sets one field |

## Left out

- Sockets, poll loops, TLS, HTTP and WebSocket, logging, configuration, metrics and the demo programs: input and output only.
- Threads and locks as such: every region under a lock is one step. Wake-ups that a condition variable might lose are not modelled, so no step is promised to happen, only to be possible.
- Timer wheels with one layer or more than four, start after stop, and clock jitter: `tick` and `start` are not made for the first two; ticks run on time here.
- A tick whose walk does not end: the contracts describe every state it goes through, up to any number of iterations, but there is nothing after it.
- TimerWheels.TimerWheel.Cascade: the order in which a cascade puts tasks into a lower slot is not stated; timers of a slot fire in the order of its list.
- Callbacks of timers that cancel or add through other threads, and `get_next_expire_time`: the first is a data race in the source, the second a plain scan.
- MOVE events have no specification by what entities see: a move within a cell notifies only that cell, and the model states just that.
- Entity-returning grid queries and per-cell counts: the same walks as the id queries.
- GridAois.GridAoi.UpdateEntity: which events are sent, and how often, is stated, but not in which order the watchers get them.
- A grid callback installed later than the first operation: it would have missed events.
- Fixed-width overflow of weights, delays, positions, counters and timer ids: integers are unbounded; framing lengths are modelled in their 16 and 32 bits.
- WeightedRoundRobin.WeightedRoundRobinLoadBalancer.SelectMany: the laws of whole sequences are about lists without duplicates; the service discovery with its stable sort is a parameter.
- FNV-1a: an arbitrary function to 32 bits; sorting is some sorted permutation.
- Codec.LengthHeaderCodec.Decode: after an overrun nothing is defined in the source, and the model says nothing more either.
- JsonCodec: the same code as LengthHeaderCodec.
- Rpc.RpcClient.Call: the circuit breaker and the rate limiter are one parameter; callbacks are set and do not call back into the client.
- Reconnecting, `call_sync` and the cleanup thread: the sweeps it makes are steps at arbitrary times.
- RpcSystem.OwnAnswers: one connection, as connections of the server object are independent; what callbacks get once a request or an answer has not fit its frame is not stated, beyond `AnsweredIff` and `AlwaysShort`.
- Handler exceptions on the server: their text is the handler's answer.
- Callback-style storage operations: they share enqueue and the workers with the Future style.
- Storage adapters without a worker thread: nothing would ever run.
- Number and boolean accessors of documents and the YAML branch: conversions by the C and YAML libraries.
- Node registry, distributed lock, Redis client, connection pool, SLG, sessions and rooms: no invariant that reaches further than one body.
