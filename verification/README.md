# netio in Dafny

netio is a C++ network library. Under its socket layer lie a few algorithmic
pieces whose invariants are easy to break and hard to see. This project models
them and proves what they are for:

- the **bitmap allocator**, a 64-ary summary tree in words of 64 bits, refines
  "take the smallest free slot" (`Words`, `BitmapValues`, `BitmapTree`,
  `FixedBufferPool`);
- the **hashed wheel timer** refines a bag of absolute deadlines, and the
  **session manager** on top of it keeps exactly one armed timeout for each live
  session (`WheelValues`, `WheelRefinement`, `WheelFates`, `HashedWheelTimer`,
  `SessionValues`, `SessionManager`);
- **length-prefixed framing** over a shared, growing buffer delivers the same
  messages however the stream is cut, and a message keeps its bytes for ever
  (`BufferValues`, `VecBuffer`, `FieldLenNetPack`, `NetPackDispatcher`);
- the **hand-off of runnables** to the looper's thread loses no wake-up under
  any interleaving (`RunnableHandOff`);
- the **send queue**, the **receive buffer** and the **log pipeline** conserve
  bytes over every run, and the **numeral printers** print the one canonical
  numeral (`SendValues`, `TcpConnection`, `LogValues`, `LogPipeline`,
  `Numerals`); `PeerToPeer` joins the send queue of one peer to the framing of
  the other.

Each piece has a value model (`...Values`, pure functions with the theorems) and,
where the source changes objects in place, classes with the source's fields whose
methods are proved against the value model. `dafny verify dfyconfig.toml` checks
the whole project.

## Where the code and its intent differ

The model follows the intent at the points below, and states for each, where the
code as it stands has a defined result, exactly when that result is right.

| code | repair in the model | what is proved of the code as it stands |
|---|---|---|
| `include/BitmapTree.hpp:56` shifts an `int` | a 64-bit mask, as at line 74 | `BitmapValues.SetUpAsWrittenExactly`: `bitTurnback` is right exactly when the mask is right in every layer the walk reaches; `BitmapValues.TurnbackBreaksTree` is a run that breaks the tree although the first mask is right (on a machine that shifts modulo 32) |
| `BitmapTree.cpp:42` builds no layer for sizes 0 and 1 | none: the model does the same | `BitmapValues.NoSlotHeldTwiceExactly`: slots are unique exactly from size 2 on |
| `include/HashedWheelTimer.hpp:141-143` cuts the ticks to 32 bits | none: the model does the same | `HashedWheelTimers.FiresInTimeExactly`: a timeout keeps its time exactly below 2^32 ticks |
| `netpack/Session.hpp:224` erases every session of a user | none: the model does the same | `SessionValues.UserFoundExactly`: a live session is found by its user exactly when no session of that user has expired since it was opened; `SessionValues.LiveSessionLosesUser` is a run that loses one |
| `netpack/FieldLenNetPack.hpp:71` reads the length as a signed number | none: the model does the same | `FieldLenNetPack.ReadBackExactly`: a message can be read back exactly with 1 to 32755 bytes of content |
| `include/TcpConnection.hpp:144-145` measures the buffer after the erased one | the size is taken first | `SendValues.SendedExactly` gives the exact queues for which it makes no difference; `SendValues.SendedWrong` is one for which it does |
| `TcpConnection.cpp:122` stores the result of `writev` unsigned | a failed `writev` has sent nothing | `SendValues.UnsignedResultExactly`: a turn is right exactly when `writev` has not failed, and loses no byte exactly then or when the queue holds none |
| `TcpConnection.cpp:44-46` does not mark the pending bytes written | they are marked | `TcpConnections.MergeExactly`: right exactly when the bytes fit the buffer; `TcpConnections.MergeWrong` is a read that does not |
| `include/TcpConnection.hpp:111-118` queues references | the connection's queue holds a buffer once | `SendValues.SharedSendedExactly`: with buffers queued more than once, marking is right exactly when the buffer trimmed is not queued again |
| `Channel.cpp:44-54` replaces the watched events | none: the model does the same | `SendValues.ReadingExactly`: an open connection goes on reading exactly if no event has left bytes waiting in its queue; `SendValues.ReadingStops` is a run in which it stops |
| `LogFile.cpp:41` writes without asking whether the file is open | none: the model does the same | `LogValues.DestroyedExactly`: the destructors write to no file exactly when it could not be opened and something was logged |

## Model

| member | source | states |
|---|---|---|
| Words.SetBitBits | include/BitmapTree.hpp:56 | Or-ing the 64-bit mask turns on the bit counted from the most significant end and no other |
| Words.ClearBitBits | include/BitmapTree.hpp:74 | And-ing the complement turns off that bit and no other |
| Words.Clz | include/BitmapTree.hpp:93 | The leading zeros of a nonzero word are the index of its first set bit |
| Words.TailWordBits | BitmapTree.cpp:15 | The shifted mask keeps exactly the first tail bits of the last word |
| Words.ZeroWord | include/BitmapTree.hpp:55 | A word is 0 exactly when none of its bits is set |
| Words.IntMaskCorrectExactly | include/BitmapTree.hpp:56 | For each of the 64 bits of a word, the mask made from an `int` is the intended one exactly for bits 33 to 63, counted from the most significant |
| Words.IntMaskRight | include/BitmapTree.hpp:56 | For a word with the bit off, or-ing the mask made from an `int` turns on that bit alone exactly for bits 33 to 63, and for bits 0 and 32 when the other 32 of the first 33 bits are on |
| BitmapValues.SetInLayerAt | include/BitmapTree.hpp:53-57 | `set` changes one unit of the layer and nothing else |
| BitmapValues.ClearInLayerAt | include/BitmapTree.hpp:72-74 | `reset` changes one unit of the layer and nothing else |
| BitmapValues.SetAsMeantExactly | include/BitmapTree.hpp:56 | `set` with the mask made from an `int` is right for all layers at once exactly when the unit is one of the last 31 of its word |
| BitmapValues.SetUpAsWrittenExactly | include/BitmapTree.hpp:133-142 | For a well-formed tree and a slot in use, `bitTurnback` with that mask does what it should exactly when the mask is right in the word of each layer it reaches |
| BitmapValues.Slot63BreaksTree | include/BitmapTree.hpp:133-142 | Turning back slot 63 with that mask breaks a tree whose first word is empty under a layer of at most 32 units, though the mask of the last layer is right |
| BitmapValues.RequiresInOrder | BitmapTree.cpp:73-104 | A fresh tree hands out its slots 0, 1, 2, ... in order |
| BitmapValues.TurnbackBreaksTree | include/BitmapTree.hpp:133-142 | The run: after 64 requires on a tree of 65 to 2048 slots, turning back slot 63 with that mask breaks the tree |
| BitmapValues.SetAtSizeBreaks | include/BitmapTree.hpp:49 | The index equal to the size passes the bound check, and where the array still holds it, marks a bit past the size |
| BitmapValues.FullLayerOk | BitmapTree.cpp:3-20 | A new layer has every bit below its size set and none past it, so no word is 0 |
| BitmapValues.FullTreeOk | BitmapTree.cpp:37-58 | The constructor's layers summarise each other and exactly the slots below the size are free; there is no layer exactly for sizes 0 and 1 |
| BitmapValues.DepthBound | BitmapTree.cpp:42-48 | 64^d slots need at most d layers, so 64^8 fit the table of 8 |
| BitmapValues.ClearUpOk | BitmapTree.cpp:96-100 | Clearing upward keeps every summary although it stops early, and removes exactly that slot from the free set |
| BitmapValues.SetUpOk | include/BitmapTree.hpp:133-142 | Setting upward keeps every summary although it stops early, and adds exactly that slot to the free set |
| BitmapValues.DescendFindsLowest | BitmapTree.cpp:80-88 | For any number of layers the descent ends at the lowest free slot and fails only when no slot is free |
| BitmapValues.AcquireTakesMinimum | BitmapTree.cpp:73-104 | `bitRequire` refines taking the minimum of the free set: -1 exactly when it is empty, else its least element, which alone is removed |
| BitmapValues.GiveBackOk | include/BitmapTree.hpp:133-142 | `bitTurnback` adds exactly the slot given back |
| BitmapValues.TurnbackUndoesAcquire | include/BitmapTree.hpp:133-142 | Turning back the slot just required restores the free set |
| BitmapValues.StepOk | include/BitmapTree.hpp:133-142 | Every call keeps the summaries and the split of all slots into free and held |
| BitmapValues.RunConserves | BitmapTree.cpp:73-104 | After any run of requires and turn-backs free and held slots are disjoint and add up to the size |
| BitmapValues.NoSlotHeldTwiceExactly | BitmapTree.cpp:42 | No run hands out a slot that is held exactly when the size is at least 2 |
| BitmapTrees.BitmapLayer.constructor | BitmapTree.cpp:3-20 | The words of a new layer are those of the full layer |
| BitmapTrees.BitmapLayer.Set | include/BitmapTree.hpp:48-58 | The layer becomes the one with the bit set, also at the index equal to the size; larger indices are ignored; the result says whether the word was 0 |
| BitmapTrees.BitmapLayer.Reset | include/BitmapTree.hpp:67-75 | The layer becomes the one with the bit cleared, also at the index equal to the size; larger indices are ignored; the result says whether the word has become 0 |
| BitmapTrees.BitmapLayer.FirstBitSet | include/BitmapTree.hpp:84-94 | The first set unit of a word, -1 when there is none |
| BitmapTrees.StackLayers | BitmapTree.cpp:39-57 | The loop stacks the layers of the full tree, root first |
| BitmapTrees.BitmapTree.constructor | BitmapTree.cpp:37-58 | A valid tree of at most 8 layers with exactly the slots below the size free |
| BitmapTrees.BitmapTree.BitRequire | BitmapTree.cpp:73-104 | Returns the least free slot and removes it alone, -1 exactly when none is free; the tree stays valid |
| BitmapTrees.BitmapTree.FindDownward | BitmapTree.cpp:80-88 | The downward loop records the offsets of the descent, layer by layer |
| BitmapTrees.BitmapTree.ResetUpward | BitmapTree.cpp:96-100 | The upward loop turns the layers into those of the cleared tree |
| BitmapTrees.BitmapTree.BitTurnback | include/BitmapTree.hpp:133-142 | The free set gains exactly the index; the tree stays valid |
| BitmapTrees.BitmapTree.SetUpward | include/BitmapTree.hpp:136-141 | The upward loop turns the layers into those of the tree with the slot set |
| FixedBufferPools.IndexRecovered | include/FixedBuffer.hpp:25 | Dividing the offset of any address in a block gives back the index of the block |
| FixedBufferPools.LiveBlocksDisjoint | include/FixedBuffer.hpp:15-29 | After any run the blocks held are pairwise disjoint ranges inside the pool |
| FixedBufferPools.FixedBufferPool.constructor | include/FixedBuffer.hpp:35-36 | A pool whose blocks are all free, for two blocks or more |
| FixedBufferPools.FixedBufferPool.Alloc | include/FixedBuffer.hpp:15-21 | The address of the least free block, null exactly when none is free |
| FixedBufferPools.FixedBufferPool.Release | include/FixedBuffer.hpp:23-29 | Frees the block that the pointer lies in and no other; ignores null |
| WheelValues.DeadlineBucket | include/HashedWheelTimer.hpp:110-113 | The deadline that an entry's bucket and rounds stand for falls in that bucket |
| WheelRefinement.AddHolds | include/HashedWheelTimer.hpp:109-120 | Adding to bucket (ticked + ticks) mod W with ticks / W rounds is adding the deadline ticked + ticks to the bag |
| WheelRefinement.CancelHolds | include/HashedWheelTimer.hpp:43-46 | Cancelling an entry is taking its deadline out of the bag |
| WheelRefinement.PassHolds | HashedWheelTimer.cpp:6-28 | A pass that erases while it iterates runs, in order, exactly the armed entries that are due, and keeps the deadlines of those it leaves |
| WheelRefinement.OthersHold | include/HashedWheelTimer.hpp:136-139 | The deadlines in the buckets not visited stay as they are when the tick count moves on |
| WheelRefinement.TickHolds | include/HashedWheelTimer.hpp:136-139 | A tick of the wheel keeps it in step with the bag and runs exactly what the bag has due, in order |
| WheelRefinement.RunsInStep | include/HashedWheelTimer.hpp:109-139 | Wheel and bag stay in step over every run of adds, cancels and ticks |
| WheelRefinement.WheelRefinesBag | include/HashedWheelTimer.hpp:109-139 | For any number of buckets and any run, the wheel runs what the bag of absolute deadlines runs, in the same order |
| WheelFates.FiresMeans | include/HashedWheelTimer.hpp:52-65 | What firing means for a run: there is a tick number k+1 with no cancel before it |
| WheelFates.FateOfArmed | HashedWheelTimer.cpp:6-28 | An armed timeout runs once or never: once if its deadline's tick comes before a cancel, and then at its deadline |
| WheelFates.FateOfGone | include/HashedWheelTimer.hpp:43-65 | A timeout that has run or been cancelled never runs again |
| WheelFates.TimeoutFiresOnTime | include/HashedWheelTimer.hpp:109-139 | In every run of the wheel, a timeout added with k ticks runs exactly once, in the tick that starts k ticks later, unless it was cancelled before; otherwise never |
| WheelFates.CancelledLeaves | HashedWheelTimer.cpp:16-24 | A cancelled entry is in no bucket after W further ticks, whatever its rounds and whatever else happens |
| HashedWheelTimers.MaskIsMod | include/HashedWheelTimer.hpp:111-113 | And-ing with 2^s - 1, bit by bit, is the remainder by 2^s |
| HashedWheelTimers.ExpireTicksExactly | include/HashedWheelTimer.hpp:141-143 | The 32-bit tick count is the quotient rounded up exactly when that quotient fits 32 bits |
| HashedWheelTimers.IndexSurvivesWrap | include/HashedWheelTimer.hpp:111-113 | The bucket index is right although the 32-bit sum and the 64-bit tick count wrap |
| HashedWheelTimers.PlacedRight | include/HashedWheelTimer.hpp:111-113 | Masks and wraps together give the bucket (ticks + ticked) mod W |
| HashedWheelTimers.FiresInTimeExactly | include/HashedWheelTimer.hpp:109-143 | In every run with ticks equally far apart, a timeout that runs does so more than expireMs and less than expireMs + 2 * msPerTick after it was added, exactly when its number of ticks fits 32 bits |
| HashedWheelTimers.CalculateNormalizeShift | HashedWheelTimer.cpp:41-47 | The least power of two that is at least ticksPerWheel |
| HashedWheelTimers.HashedWheelTimeout.Cancel | include/HashedWheelTimer.hpp:43-46 | The state is cancelled |
| HashedWheelTimers.HashedWheelTimeout.Expire | include/HashedWheelTimer.hpp:52-65 | Runs the task exactly when the state was initial, and then is expired |
| HashedWheelTimers.HashedWheelTimeout.DecreaseRounds | include/HashedWheelTimer.hpp:71-74 | One round less |
| HashedWheelTimers.HashedWheelBucket.PassStep | HashedWheelTimer.cpp:9-27 | One turn of the pass: the entry is kept or erased in place, and runs exactly when it is armed and has no rounds left |
| HashedWheelTimers.HashedWheelBucket.ExpireTimeouts | HashedWheelTimer.cpp:6-28 | The list becomes the survivors and the tasks run are those fired, in order |
| HashedWheelTimers.HashedWheelTimer.constructor | HashedWheelTimer.cpp:30-39 | The least power of two of empty buckets that reaches ticksPerWheel, in step with the empty bag at tick 0 |
| HashedWheelTimers.HashedWheelTimer.Place | include/HashedWheelTimer.hpp:110-113 | Shift and masks give ticks / W rounds and bucket (ticks + ticked) mod W |
| HashedWheelTimers.HashedWheelTimer.AddTimeout | include/HashedWheelTimer.hpp:109-133 | The bag gains the deadline now + ticks, and the buckets the entry that stands for it |
| HashedWheelTimers.HashedWheelTimer.CancelTimeout | include/HashedWheelTimer.hpp:43-46 | The bag loses the timeout, and its entry stays in its bucket, cancelled |
| HashedWheelTimers.HashedWheelTimer.Tick | include/HashedWheelTimer.hpp:136-139 | Runs exactly the tasks due, in order, leaves the survivors in the buckets, and moves on by one tick |
| SessionValues.ConnectIdsDiffer | netpack/Session.hpp:41-46 | Two peers have the same connection id exactly when address and port are the same |
| SessionValues.ConnectIdParts | netpack/Session.hpp:41-46 | The id holds the address above the 32 bits of the port |
| SessionValues.TouchNewOk | netpack/Session.hpp:195-199 | Opening a session keeps: one armed timeout for each live session, due at its last touch plus the idle ticks, and none for others |
| SessionValues.TouchOldOk | netpack/Session.hpp:243-248 | Touching a live session keeps it, the old timeout being cancelled after the new one is armed |
| SessionValues.TickRemovesDue | netpack/Session.hpp:214-226 | A tick removes from the connections exactly the sessions due |
| SessionValues.TickOk | netpack/Session.hpp:214-226 | A tick keeps the invariant; no user entry of a removed session stays |
| SessionValues.RunOk | netpack/Session.hpp:182-248 | The invariant holds after every run of heartbeats and ticks; every user entry is a live session under its own id |
| SessionValues.LiveExactly | netpack/Session.hpp:189-248 | A session is live exactly when a heartbeat has come and at most the idle number of ticks have followed the last one |
| SessionValues.TickKeepsUserExactly | netpack/Session.hpp:224 | A tick keeps a user's entry exactly when no session of that user is due |
| SessionValues.UserFoundExactly | netpack/Session.hpp:202-226 | Over every run, a live session is found by its user exactly when no session of that user has expired since it was opened |
| SessionValues.UsersListedOnce | netpack/Session.hpp:202-212 | Over every run a session is listed under its user at most once |
| SessionValues.LiveSessionLosesUser | netpack/Session.hpp:224 | A run after which a live session is not found by its user: the two maps do not agree |
| SessionManagers.Session.ResetTimeout | netpack/Session.hpp:128-133 | The old timeout is cancelled and the new one taken |
| SessionManagers.SessionManager.constructor | netpack/Session.hpp:182-187 | Both maps empty, nothing armed, and a wheel of at least expireMS / 100 buckets |
| SessionManagers.SessionManager.LiveInMilliseconds | netpack/Session.hpp:182-248 | In a manager made for expireMS, a session is live exactly while the ticks of 100 ms since its last heartbeat do not exceed expireMS / 100, rounded up |
| SessionManagers.SessionManager.FindSessionByCid | netpack/Session.hpp:228-236 | The session of the id, if there is one |
| SessionManagers.SessionManager.AddSession | netpack/Session.hpp:202-212 | Both maps gain the session and keep the others |
| SessionManagers.SessionManager.TouchSession | netpack/Session.hpp:243-248 | A timeout is armed for the idle time and the session's earlier one is cancelled |
| SessionManagers.SessionManager.HandleHeartbeat | netpack/Session.hpp:189-200 | Maps, session objects and timer are those of the run with this heartbeat added; a known peer keeps its session, a new one gets a session with the key, and all other sessions stay |
| SessionManagers.SessionManager.RemoveSession | netpack/Session.hpp:214-226 | The session leaves the connections and its user leaves the users |
| SessionManagers.SessionManager.HandleTick | netpack/Session.hpp:214-226 | Maps, session objects and timer are those of the run with this tick added |
| BufferValues.AppendContents | include/VecBuffer.hpp:123-126 | Appended bytes follow the readable ones; the bytes before stay as they are |
| BufferValues.GrowContents | include/VecBuffer.hpp:138-149 | Growing keeps the contents and gives the room asked for |
| BufferValues.MarkReadContents | include/VecBuffer.hpp:114-118 | Marking read drops exactly the first bytes and keeps the room |
| BufferValues.StepInOrder | include/VecBuffer.hpp:114-149 | Every operation of the parent keeps the pieces apart, in order and below its offset, inside the vector |
| BufferValues.SplitContents | include/VecBuffer.hpp:195-202 | The piece gets exactly the first readable bytes, and the parent keeps the others |
| BufferValues.StepContents | include/VecBuffer.hpp:114-149 | What every other operation does to the readable bytes and the room, and that one its assertion would stop does nothing |
| BufferValues.PiecesKeepBytes | include/VecBuffer.hpp:195-202 | A piece keeps its place and its bytes over every later run of its parent |
| BufferValues.PiecesDisjoint | include/VecBuffer.hpp:195-202 | Over every run of a new buffer no byte is in two pieces, or in a piece and its parent, and all stay inside the vector |
| BufferValues.Be16RoundTrip | include/VecBuffer.hpp:157-162 | Two big-endian bytes read back as the number |
| BufferValues.Be32RoundTrip | include/VecBuffer.hpp:164-169 | Four big-endian bytes read back as the number |
| BufferValues.Unsigned | netpack/FieldLenNetPack.hpp:93-97 | A signed field stored unsigned reads back as the signed number |
| VecBuffers.VecBuffer.MarkRead | include/VecBuffer.hpp:114-118 | The first bytes are read, in place |
| VecBuffers.VecBuffer.Append | include/VecBuffer.hpp:123-126 | The contents gain the bytes, in the shared vector |
| VecBuffers.VecBuffer.Enlarge | include/VecBuffer.hpp:138-140 | The shared vector grows at its end |
| VecBuffers.VecBuffer.Ensure | include/VecBuffer.hpp:145-149 | The shared vector grows when it does not reach the size from the offset |
| VecBuffers.VecBuffer.PeekInt16 | include/VecBuffer.hpp:157-162 | 256 times the first byte plus the second, as a signed 16-bit number |
| VecBuffers.VecBuffer.Split | include/VecBuffer.hpp:195-202 | A new buffer on the first bytes that shares the vector, exactly when enough are readable |
| FieldLenNetPack.EncodedFields | netpack/FieldLenNetPack.hpp:87-98 | Every header field is found again at its place, whatever follows |
| FieldLenNetPack.ReadBack | netpack/FieldLenNetPack.hpp:182-243 | A frame reads back as the message written and leaves the bytes after it |
| FieldLenNetPack.ReadBackExactly | netpack/FieldLenNetPack.hpp:69-74 | A message can be read back exactly when its content has 1 to 32755 bytes |
| FieldLenNetPack.LengthOnWire | netpack/FieldLenNetPack.hpp:69-74 | The length is 256 times the first byte plus the second, negative from 32768 on |
| FieldLenNetPack.WriteOnWire | netpack/FieldLenNetPack.hpp:87-98 | The bytes written: the length with the header modulo 2^16, high byte first, each field at its place in two's complement, two zero bytes, and the content; nothing exactly for a content of 2^16 bytes or more |
| FieldLenNetPack.ReadFromWire | netpack/FieldLenNetPack.hpp:135-195 | For any bytes, exactly when nothing is read, when an assertion fails, and when a message is read, with the fields, the content and the rest at their places |
| FieldLenNetPack.ParseInTwo | netpack/NetPackDispatcher.hpp:41-58 | Parsing in two goes, the second from what the first left, is parsing in one |
| FieldLenNetPack.ChunkingDoesNotMatter | netpack/NetPackDispatcher.hpp:41-58 | For any bytes, well formed or not, and any cuts, the messages, the bytes left and a failed assertion are those of one parse of the whole |
| FieldLenNetPack.ListReadBack | netpack/FieldLenNetPack.hpp:182-243 | A list of messages written one after the other parses back to the list |
| FieldLenNetPack.DeliveredAsWritten | netpack/NetPackDispatcher.hpp:41-58 | Frames written and received in any chunks deliver the list written, with no byte left over |
| NetPackDispatchers.DecodePiece | netpack/FieldLenNetPack.hpp:135-146 | The piece holds the content and the message has the fields of its frame |
| NetPackDispatchers.PeekPacketLength | netpack/FieldLenNetPack.hpp:69-74 | The signed length, -1 on less than two bytes |
| NetPackDispatchers.ReadMessageFrom | netpack/FieldLenNetPack.hpp:182-195 | One message off the front, as a piece of the same vector; nothing changes when there is none |
| NetPackDispatchers.Reserve | netpack/NetPackDispatcher.hpp:49-52 | Room for the frame that has begun; contents and messages stay as they are |
| NetPackDispatchers.LeftIsPartial | netpack/NetPackDispatcher.hpp:42-57 | What a parse leaves holds no whole message |
| NetPackDispatchers.DispatchTurn | netpack/NetPackDispatcher.hpp:42-57 | One turn delivers the next message of the parse and shortens what is readable, or ends with room for the frame that has begun |
| NetPackDispatchers.Dispatch | netpack/NetPackDispatcher.hpp:41-58 | The loop ends and delivers exactly the messages of the parse, sharing the storage; messages delivered before keep their content; a partial frame of known length L has fewer than L bytes readable and room for the rest |
| RunnableHandOff.StepKeepsInv | include/MultiplexLooper.hpp:120-182 | Every step of a poster, of epoll and of the loop keeps the invariant |
| RunnableHandOff.HandOffIsSafe | include/MultiplexLooper.hpp:39-51 | Under every interleaving, executed, batch and queue are the runnables in the order posted; the read of the eventfd never fails; queued runnables have a poster, a signal or the loop on the way to them |
| RunnableHandOff.HistoryIsWhole | include/MultiplexLooper.hpp:120-158 | Over every run, what has been queued is exactly the runnables pushed, in order, and what has run on the loop's own thread is exactly those posted there, each once and in order |
| RunnableHandOff.EverythingRuns | include/MultiplexLooper.hpp:171-182 | When no poster is between push and signal, the loop left to itself runs everything that was posted |
| RunnableHandOff.SignalledRuns | include/MultiplexLooper.hpp:120-182 | Whatever other posters go on doing, once a poster has signalled, its runnable and all pushed before have run by the end of the loop's next batch, or of the next but one if a batch was running |
| RunnableHandOff.IdleMeansDone | MultiplexLooper.cpp:42-65 | A loop asleep in epoll_wait has run everything, unless a poster has yet to signal |
| RunnableHandOff.StopEndsLoop | MultiplexLooper.cpp:77-80 | Once stopped, the loop ends at most one batch more and is not started again |
| RunnableHandOff.MultiplexLooper.Wakeup | include/MultiplexLooper.hpp:39-42 | The call is the signal step of its poster |
| RunnableHandOff.MultiplexLooper.PostRunnable | include/MultiplexLooper.hpp:120-142 | On the loop's own thread the runnable has run when the call returns, and nothing is queued; on another it is pushed and signalled, and is on its way |
| RunnableHandOff.MultiplexLooper.PostRunnablePopStack | include/MultiplexLooper.hpp:144-158 | The call is a push and a signal; the invariant is kept and everything pushed is on its way |
| RunnableHandOff.MultiplexLooper.HandleRead | include/MultiplexLooper.hpp:44-51 | The call is the read, the swap, one execution for each runnable and the return; the read does not come up empty and everything pushed has run, in order |
| RunnableHandOff.MultiplexLooper.ExecuteRunnables | include/MultiplexLooper.hpp:171-182 | The call is the swap, one execution for each runnable and the return; everything pushed has run, in order |
| RunnableHandOff.MultiplexLooper.EventStep | MultiplexLooper.cpp:42-65 | A turn of the loop is a run of the steps; it finds the eventfd readable exactly when there is a signal, and then everything pushed has run |
| RunnableHandOff.MultiplexLooper.StopLoop | MultiplexLooper.cpp:77-80 | The loop is told to end |
| SendValues.AfterSendingDrops | include/TcpConnection.hpp:138-155 | Marking n bytes sent drops exactly the first n bytes of the queue |
| SendValues.SendedExactly | include/TcpConnection.hpp:138-155 | The loop as written, which measures the buffer after the erased one, leaves the right queue exactly when a buffer is left, it is as long as the first one was, and each buffer sent is at most half of what then remained plus the first one's length |
| SendValues.SendedWrong | include/TcpConnection.hpp:144-145 | A queue of two buffers of which the loop as written drops a byte too few |
| SendValues.SharedSendedExactly | include/TcpConnection.hpp:138-155 | With buffers queued by reference and more than once, marking leaves the right queue exactly when the buffer that is trimmed is not queued again |
| SendValues.UnsignedResultLosesQueue | TcpConnection.cpp:122-126 | A failed `writev` taken as unsigned drops the whole queue, and the loop as written runs off its end |
| SendValues.UnsignedResultExactly | TcpConnection.cpp:122-137 | For every result of `writev`, the turn as written leaves the connection it should exactly when the result is not -1, and conserves the bytes exactly then or when the queue holds none |
| SendValues.WrittenConserves | TcpConnection.cpp:102-126 | One `writev` of at most 50 buffers moves bytes from queue to socket and keeps their order |
| SendValues.OfferedFirst | TcpConnection.cpp:93-114 | One `writev` offers the first 50 buffers, or all when there are fewer |
| SendValues.SendUsesAnswers | TcpConnection.cpp:99-142 | Every answer of the socket is used: it takes the first bytes of the queue, as many as it answers and is offered, and sending goes on with the next answer; an answer of nothing ends it, waiting or closed as `errno` says |
| SendValues.SendTakesAsked | TcpConnection.cpp:92-143 | Of a queue that fits one `writev` the socket takes exactly as many bytes as the answers add up to |
| SendValues.AllSent | TcpConnection.cpp:92-143 | A socket that takes all it is offered leaves an empty queue and every watch as it was |
| SendValues.WritableSends | include/TcpConnection.hpp:77-79 | A write event goes on sending with the first answer |
| SendValues.EverythingSent | include/TcpConnection.hpp:102-118 | Over every run in which the socket takes all it is offered, everything enqueued has been taken and the connection goes on reading |
| SendValues.SendConserves | TcpConnection.cpp:92-143 | `sendInternal`, whatever the socket answers, conserves the bytes, and bytes still queued are waited for or the connection is closed |
| SendValues.SendQueueConserves | include/TcpConnection.hpp:102-118 | Over every run of sends and write events, what the socket took followed by the queue is everything enqueued, in order |
| SendValues.ReadingExactly | Channel.cpp:44-54 | Over every run, an open connection watches for reads exactly if no event has left bytes waiting in its queue |
| SendValues.ReadingStops | TcpConnection.cpp:129-130 | One byte that the socket does not take stops the reading |
| SendValues.ReadingEndsForGood | Channel.cpp:44-54 | Once bytes wait in the queue of an open connection, no later run watches for reads |
| TcpConnections.SendQueue.constructor | include/TcpConnection.hpp:40-62 | Nothing queued, reads watched |
| TcpConnections.SendQueue.SendedTurn | include/TcpConnection.hpp:142-153 | One turn erases the first buffer or trims it |
| TcpConnections.SendQueue.MarkSended | include/TcpConnection.hpp:138-155 | The buffers lose exactly the first bytes, in place |
| TcpConnections.SendQueue.Gather | TcpConnection.cpp:107-114 | The vectors are the readable bytes of the first 50 buffers |
| TcpConnections.SendQueue.WriteOnce | TcpConnection.cpp:121-126 | The socket takes a first part of what is offered and the queue loses it |
| TcpConnections.SendQueue.SendInternal | TcpConnection.cpp:92-143 | Queue, socket and watched events become those of the value model for every list of answers |
| TcpConnections.SendQueue.SendMultiple | include/TcpConnection.hpp:102-118 | The buffers are queued behind the others and sending goes on |
| TcpConnections.SendQueue.HandleWrite | include/TcpConnection.hpp:77-79 | A write event goes on sending |
| TcpConnections.MergeContents | TcpConnection.cpp:39-49 | Merging what two vectors have read appends all of it and keeps the bytes before |
| TcpConnections.MergeExactly | TcpConnection.cpp:42-46 | Without the mark the merge receives what was read exactly when it fits behind the readable bytes |
| TcpConnections.MergeWrong | TcpConnection.cpp:42-46 | Two bytes read where one fits: the second is not received |
| TcpConnections.Receiver.constructor | include/TcpConnection.hpp:40-41 | An empty buffer, nothing delivered |
| TcpConnections.Renewed | TcpConnection.cpp:22-26 | The contents stay; after it an empty buffer has room for half a message of 1024 bytes, and only an empty one with less room is replaced, by one of 1024 |
| TcpConnections.Receiver.Renew | TcpConnection.cpp:22-26 | The buffer is renewed in place and the messages delivered are not disturbed |
| TcpConnections.ReadLenAtLeast | TcpConnection.cpp:28-36 | At least what the first answer gives is read, up to the 32768 bytes of the pending buffer |
| TcpConnections.Receiver.MergeRead | TcpConnection.cpp:39-49 | The contents gain what was read; messages delivered keep their content |
| TcpConnections.Receiver.ReadMore | TcpConnection.cpp:38-56 | After a read and its dispatch, the messages ever delivered are one parse of everything ever read |
| TcpConnections.Receiver.HandleRead | TcpConnection.cpp:16-90 | Whatever sizes the socket gives, the messages ever delivered, still holding their content, are one parse of everything ever read; how much is read is determined by the sizes and the room of the buffer, and a socket that holds nothing back is emptied in as many turns as 32768 bytes each need |
| LogValues.FlushKeeps | include/SingleCache.hpp:101-108 | Flushing moves the bytes in use to the end of the queue |
| LogValues.MarkUsedKeeps | include/SingleCache.hpp:78-96 | The room marked lies behind everything logged before, also for a piece larger than the cache |
| LogValues.MarkUsedExactly | include/SingleCache.hpp:78-96 | A piece that fits behind the bytes in use goes there; otherwise these are handed over in one block and the piece begins the cache, which grows only for a piece larger than it |
| LogValues.SmallLogsStay | include/SingleCache.hpp:78-96 | Pieces that fit the cache together are not handed over |
| LogValues.TurnsWrite | LogFile.cpp:51-66 | With the file open, each turn of the writer moves one block to the end of the file |
| LogValues.StepKeeps | include/SingleCache.hpp:53-58 | Each step adds exactly the bytes appended, with any turns of the writer between marking and copying |
| LogValues.RunConserves | include/SingleCache.hpp:53-108 | Over every schedule, file, queue and cache hold everything appended, in order |
| LogValues.FileGetsAll | LogFile.cpp:9-27 | After the destructors the file holds what it held before and everything appended |
| LogValues.DestroyedExactly | LogFile.cpp:36-49 | The destructors complete exactly when the file was opened or nothing was logged |
| LogPipeline.DailyLogFile.Flush | LogFile.cpp:28-34 | The block is queued while logging and dropped after |
| LogPipeline.DailyLogFile.ProcessNoLock | LogFile.cpp:36-49 | The first block goes to the end of the file |
| LogPipeline.DailyLogFile.LooperTurn | LogFile.cpp:51-66 | One block is written when there is one and the file is ready, else nothing changes |
| LogPipeline.DailyLogFile.Destroy | LogFile.cpp:9-27 | What is left is written in order |
| LogPipeline.SingleCache.constructor | include/SingleCache.hpp:37 | An empty cache of N bytes |
| LogPipeline.SingleCache.FlushNoLock | include/SingleCache.hpp:101-108 | Nothing logged is lost and the cache is empty |
| LogPipeline.SingleCache.MarkUsed | include/SingleCache.hpp:78-96 | The room returned lies behind everything logged before |
| LogPipeline.SingleCache.Append | include/SingleCache.hpp:53-58 | Everything logged gains the bytes at its end |
| LogPipeline.SingleCache.Destroy | include/SingleCache.hpp:32-34 | Both destructors have the effect of the value model |
| Numerals.NumeralReadsBack | include/Logger.hpp:171-216 | The numeral has no leading zero and reads back as the number, in any base up to 16 |
| Numerals.CanonicalIsNumeral | include/Logger.hpp:171-216 | A number has no other canonical numeral |
| Numerals.DecimalExactly | include/Logger.hpp:171-195 | A string is what is printed for a value exactly when it is a canonical decimal that reads back as the value, negative ones included |
| Numerals.DecimalLength | include/Logger.hpp:80 | The digits of a 64-bit value leave room in 32 characters |
| Numerals.DigitOfTable | include/Logger.hpp:173-174 | The table read from its middle gives the digit of a remainder of either sign |
| Numerals.Truncated | include/Logger.hpp:182-183 | Truncated quotient and remainder of a negative number are those of its magnitude |
| Numerals.Reverse | include/Logger.hpp:192 | The characters are reversed in place and those behind stay |
| Numerals.PrintDecimalDigits | include/Logger.hpp:177-185 | The loop writes the digits of the magnitude, last one first |
| Numerals.StringFromNumeric | include/Logger.hpp:172-195 | The buffer holds the canonical decimal and its end mark, in less than 32 characters, down to -2^63 |
| Numerals.HexStringFromNumeric | include/Logger.hpp:197-216 | The buffer holds the canonical hexadecimal and its end mark |
| PeerToPeer.DeliveredInOrder | TcpConnection.cpp:92-143 | Frames enqueued in any buffers, taken by the socket as it likes and received in any chunks are delivered as a first part of the list written, all of it once the queue is empty |

## Left out

- Sockets, epoll, eventfd and files: replaced by abstract steps (the bytes a socket takes or gives and whether it says to try again, a counter with an edge, bytes appended to a file).
- `TimerWrap` and real time: timer and session claims count ticks; `HashedWheelTimers.FiresInTimeExactly` assumes ticks equally far apart.
- BitmapTrees.BitmapTree.BitTurnback: takes indices other than the size; the index equal to the size passes the checks of `include/BitmapTree.hpp:49` and `:68`, and reads outside the array when the size is a multiple of 64, else marks a bit past the size (`BitmapValues.SetAtSizeBreaks`).
- BitmapTrees.BitmapLayer.Set: does not take the index equal to the size when that is a multiple of 64, which is outside the array.
- BitmapTrees.BitmapLayer.Reset: does not take the index equal to the size when that is a multiple of 64, which is outside the array.
- BitmapTrees.BitmapLayer.FirstBitSet: does not take the word offset equal to the number of words, which passes the check of `include/BitmapTree.hpp:85` and is outside the array.
- BitmapTrees.BitmapTree.BitRequire: sizes above 2^31 are not covered, as `firstBitSet` returns an `int`.
- BitmapTrees.BitmapTree.constructor: the layers are a list without the null entries of the table of 8, and the diagnostic output of `bitRequire` is not modelled.
- FixedBufferPools.FixedBufferPool.Release: a pointer from outside the pool is not covered.
- HashedWheelTimers.HashedWheelTimer.Tick: returns the tasks it runs, and the session manager applies them after the pass instead of inside it; a task that adds timeouts to the bucket being visited is not covered.
- HashedWheelTimers.HashedWheelTimeout.Cancel: does not replace the task by an empty one, which its state keeps from running.
- The field `_deadline` of a timeout, which nothing reads, and a weak timeout reference that has lost its object: the wheel holds every entry whose timeout can be cancelled.
- HashedWheelTimers.HashedWheelTimer.constructor: wheels of more than 2^31 ticks are not covered, as the shift loop does not end.
- SessionManagers.SessionManager.HandleHeartbeat: heartbeats and ticks are one after the other, as on one looper; the removal handler, time stamps and sequence numbers of sessions are not modelled.
- Direct calls of `removeSession`, which do not cancel the timeout, `sendToUin` and `sendMultipleToUin`.
- VecBuffers.VecBuffer.Append: joins copying to the writable end and marking it written; `fixPrepend`, raw pointers and the other reads and peeks are left out.
- NetPackDispatchers.Dispatch: returns the messages instead of calling the handlers; handlers that write through a message's buffer are not covered.
- The second form of `writeMessage` and the length peek on raw memory (`netpack/FieldLenNetPack.hpp:55-60`, `:258`), which differ only in where the bytes are.
- RunnableHandOff.HandOffIsSafe: orders the runnables that are queued; one posted on the loop's own thread runs at once and is a step of its own. The counter of the eventfd does not overflow.
- Builds without assertions: reads and writes of the eventfd stand inside `CHKRET`, an assertion, and without it would not happen at all; the hand-off and every failed assertion in the model suppose that assertions are compiled in.
- Interference in the calls of `RunnableHandOff.MultiplexLooper`: the methods are the steps of one thread in a row; the theorems about steps cover all interleavings.
- TcpConnections.SendQueue.SendMultiple: asks that a buffer is not in the queue twice, since trimming one would trim the other; `SendValues.SharedSendedExactly` says exactly when that is harmless.
- SendValues.SendedExactly: queues of 2^63 bytes or more are not covered.
- Closing handlers and errors of `readv`: a connection that fails stops reading.
- LogValues.RunConserves: one appender, because the copy of `append` is made outside the lock; `recreateNewFile`, which nothing calls, and short writes to the file are left out.
- Log formatting, log levels and time stamps, and all other classes of the library.
