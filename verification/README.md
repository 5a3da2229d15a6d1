# A verified model of the wenas core

wenas is a peer-to-peer storage program that brings its own reliable transport over UDP (XLTP),
its own serialisation format (xline), its own allocator and its own containers. This project
models those parts in Dafny and proves what they are for. `dafny verify dfyconfig.toml` checks
everything.

| part | source | modules |
|---|---|---|
| XLTP sliding window protocol | src/xnet/xmsger.c | `Serial`, `Segmentation`, `Sender`, `Receiver`, `Protocol`, `Delivery`, `Progress`, `Marks`, `Ahead`, `Scenes`, `StrayRuns`, `Messenger`, `Rings`, `Channel` |
| page allocator | src/xnet/xmalloc.c | `Blocks`, `FreeList`, `PageState`, `Recycle`, `Page` |
| intrusive AVL tree | src/xlib/avlmini.c | `AvlShape`, `AvlTurn`, `AvlErase`, `AvlOrder`, `AvlTear`, `Avl` |
| string table | src/xnet/xtable.c | `TableKeys`, `TableList`, `Table` |
| nibble tree | src/xnet/xtree.h | `TrieShape`, `TrieOrder`, `TrieKeys`, `TrieClear`, `TrieCut`, `Trie` |
| xline format | src/xnet/xline.h | `XlineFormat`, `XlineFrame`, `XlineParser` |
| byte pipe | src/xnet/xpipe.h | `Ring`, `Pipe`, `PipeThreads` |
| incremental SHA-256 | src/xlib/xsha256.c | `Sha256`, `Sha256Vector` |

## Main results

**XLTP.** `Protocol` is a transition system: two endpoints, each with a sending and a receiving
half, and a network that loses, repeats and reorders datagrams at will. Serials are unbounded
numbers in the state, but every branch is decided on the 16-bit values the code sees. The only
promise of the network is that a datagram is not delivered absurdly late: a packet at most 32768
serials behind the receiver, and the position of an acknowledgement that is looked at less than a
round of the serials, but for the window, behind the sender. The serial it acknowledges may be of
any age.
`Delivery.EveryRunIsSafe` says of every state of every run, in both directions: the packets given
to reassembly are a prefix of the packets serialised; the windows of both endpoints fit together,
so two live serials never share a slot; every repetition of a serial carries the same packet;
messages come out unchanged and in order; a message is reported as sent once, in order, and only
after the peer was given it; the byte counters differ by the unacknowledged bytes.
`Progress.EveryRunCanFinish` adds that no run is ever stuck: whatever was lost, one continuation
delivers and reports everything that is queued on either side. `Messenger.EveryRunBalances` is the
account of the whole messenger over any number of channels, and every step of a channel in the
protocol is made of its moves (`Messenger.ProtocolStepMoves`). `Channel.Channel` is the code
itself, with its 64-slot and 8-slot rings and its loops; each method is proved to do what the
transition system does, with nothing assumed about the peer.

**Page allocator.** `Page.Page` works on the words of one page. Its invariant (blocks tile the page
between the sentinels, flags are boundary tags, the free list and the main block are exactly the
free blocks, no two free blocks touch, the recycle lists hold distinct allocated blocks) is kept
by malloc, free, deferred free, flush and by users writing into their own blocks. Other users'
blocks never change, and the leak test is exact. malloc refuses exactly when neither the main block
nor the first of the list has the room, never on a page with nothing allocated that is large enough,
and never right after a larger block was freed.

**AVL tree, table, nibble tree.** The AVL class follows the pointers; insertion and erasure, with
their early loop exits, keep order, exact cached heights, balance and parent links and change the
node sequence by exactly one element. The string table refines a map for any hash on top of that
class, and node addresses may be used again. The nibble tree refines a map under any additions,
repeated ones included, and under the deletions it is made for; its counters are exact, deletion
prunes exactly the dead branches, the ascending listing is in key order, and clearing hands out
every value once.

**xline.** Every tree built in place, through any reallocations, is the encoding of that tree; the
parser sees that tree and no other, exactly when no key is longer than 64 bytes.

**Pipe and SHA-256.** The ring is a FIFO of bytes; the hand-made blocking protocol, with the
counter test and the wait as separate steps, loses no wake-up and does not deadlock. Unless the pipe
is broken, a call returns only when it has moved every byte, and what was sent is the data of all
calls in a row; a broken pipe lets everyone out. Any split of the input gives the digest of FIPS
180-4; the constants are the roots the standard says they are, and the digest of "abc" is the one it
prints.

## Findings

- A repeated packet gets a renewed position but keeps the serial it acknowledged when it was first
  sent (src/xnet/xmsger.c:643-647, 909-914). Two things follow.
- First, that serial can be behind its position. Fast retransmission (src/xnet/xmsger.c:626-665)
  then walks round the whole ring and may try a packet that was serialised but never launched, so
  the receiver can be ahead of the sender's spos: `StrayRuns.ReceiverAhead` is such a run. For any
  acknowledgement, the scan can leave what was launched if and only if the release passes the
  acknowledged serial and a packet that was not launched looks lost (`Ahead.HurriesIff`); for a
  serial that is not stale, the release passes it if and only if it ends up behind rpos
  (`Ahead.PassesIff`). In runs without such an acknowledgement the receiver stays behind spos
  (`Ahead.OrderlyRunsStayBehind`). The bound that holds in every run is the sender's wpos.
  Acknowledgements are refused until spos has caught up; `Progress` shows that this resolves.
- Second, that serial can be a whole round old. It then looks like a serial of the window, and a
  packet that never arrived is marked as arrived: `StrayRuns.FalselyMarked` is such a run. The
  marked packet is the acknowledged one if and only if the serial is not stale (`Marks.MarkIff`),
  and in runs in which no stale serial is heard every mark is true (`Marks.PunctualMarks`). Delivery
  and progress do not depend on the marks.
- The number of remaining packets in a header has 16 bits: segmentation and reassembly are inverse
  if and only if every message has at most 65535 packets (`Segmentation.RoundTripIffFits`).
- The 16-bit arrival test is right if and only if a packet is not late, or between 1 and 32768
  serials late modulo 65536 (`Serial.ArrivalIff`). The acknowledgement test tolerates a lag of 65471
  in every window and not one more (`Serial.LagIsSharp`, `Serial.WindowIff`).
- malloc serves a request if and only if it is at most 2^64 - 56 bytes (`Page.RequestIff`). The
  sixteen largest requests get a block that is too small; all between pass the room test on every
  page, because reserved_size wraps, and the rest of the main block is cut backwards, between 0 and
  32 bytes in front of it (`Page.WrapCutsBack`): its header is written over the end of the preceding
  block or over the main block's own header (`Page.WrapHitsNeighbour`).
- xl_obj_end does not refresh the header of the frame, so the header of a whole frame is stale if
  and only if nothing was added or the last thing added is an empty object
  (`XlineFrame.HeaderIff`).
- xtree_add counts a key that is stored already once more. Searches, deletions and listings stay
  right; after xtree_clear the count of the root is zero if and only if no addition was repeated or
  without a value (`Trie.Trie.Clear`).
- xtree_del looks for a node, not for a value. It keeps the tree sound if and only if the key was
  added and not taken back since, or nothing that was added continues it (`Trie.Trie.Del`).
  Otherwise the total is one too low, and when a single addition goes on behind the key its value is
  cut off without having been deleted (`Trie.DeletedPrefix`).
- tree_rise looks at its limit only between two descents and counts it down in 64 bits, so the list
  is either as long as the limit says or complete (`Trie.Trie.Rise`).
- __xl_realloc stores the new size before the memory is granted. When it is refused the frame keeps
  the old buffer under the larger size (`XlineFrame.Frame.Reserve`).
- Keys longer than 64 bytes are stored cut and are never found again (`XlineParser.LongKeyLost`).
- xl_set_value writes nine bytes over whatever it finds. The object is then the old one with the
  number in place of the value if and only if the overwritten line has nine bytes
  (`XlineParser.Parser.SetValue`).
- xpipe_create makes a usable pipe if and only if the length is between 1 and 2^63: zero passes for
  a power of two, and above 2^63 the rounding wraps to zero (`Pipe.RoundUp`).
- The branch of __xl_b2n for other byte orders does not undo __xl_n2b: it does so only for numbers
  whose bytes are a palindrome (`XlineFormat.BigEndianIffPalindrome`, `XlineFormat.BigEndianFails`).

## Model

| member | source | states |
|---|---|---|
| `Serial.ArrivalIff` | src/xnet/xmsger.c:687-721 | the 16-bit exact/early/late test equals the test on unbounded serials if and only if the packet is not late, or between 1 and 32768 serials late modulo 65536 |
| `Serial.WindowIff` | src/xnet/xmsger.c:556-577 | the 16-bit window test on acknowledgements is the test rpos <= x <= spos if and only if x is not behind rpos, or behind it, modulo 65536, by at least 1 and less than 65536 - (spos - rpos); for a position that is not stale it measures the true distance |
| `Serial.LagIsSharp` | src/xnet/xmsger.c:556-558 | every window tolerates a lag if and only if it is at most 65471 |
| `Serial.GapOfWrapped` | src/xnet/xmsger.c:141-145 | truncating both positions to 16 bits does not change a ring distance |
| `Serial.SerialAt` | src/xnet/xmsger.c:137-139 | every slot of a ring stands for exactly one serial of the window |
| `Segmentation.PackCount` | src/xnet/xmsger.c:183-199 | the number of packets of a message: enough for its bytes, one for an empty message |
| `Segmentation.ReassembleAll` | src/xnet/xmsger.c:455-482 | feeding the packets of any sequence of messages gives back those messages, byte for byte and with their boundaries and types |
| `Segmentation.ReassemblePrefix` | src/xnet/xmsger.c:455-482 | after any prefix of the packet stream exactly the complete messages are out and the one in progress holds the bytes so far, without overflow |
| `Segmentation.RoundTripIffFits` | src/xnet/xmsger.c:183-199 | reassembly undoes segmentation if and only if every message has at most 65535 packets |
| `Segmentation.FeedConcat` | src/xnet/xmsger.c:451-482 | reassembly does not depend on how the packet stream is split between calls |
| `Sender.QueueInv` | src/xnet/xmsger.c:1120-1135 | queueing a message at the end, or refusing it exactly when eight are in the ring, keeps the sender's invariant and counts its bytes |
| `Sender.SerialiseInv` | src/xnet/xmsger.c:314-356 | cutting the next packet keeps the sender's invariant: the ring holds the packets of the cut stream in order |
| `Sender.AckOneInv` | src/xnet/xmsger.c:575-605 | releasing the oldest packet credits its own message, which is the one in the rpos slot of the message ring, and reports it with its last byte |
| `Sender.AckToInv` | src/xnet/xmsger.c:575-611 | the cumulative loop releases exactly the packets it passes, keeps the invariant and never passes spos |
| `Sender.AckedInv` | src/xnet/xmsger.c:549-623 | for any numbers an acknowledgement may carry, the invariant holds, no packet changes, and at most the acknowledged slot is marked besides the released packets |
| `Sender.AckLoopTest` | src/xnet/xmsger.c:575-577 | the loop test on wrapped positions says exactly whether there is another turn |
| `Sender.RelabelInv` | src/xnet/xmsger.c:358-410 | sending and re-sending, which only rewrite headers and marks, keep the invariant |
| `Receiver.DrainStops` | src/xnet/xmsger.c:451-493 | delivery stops in front of an empty slot, also when all slots were full, and empties only the slots it passed |
| `Receiver.DrainEmpties` | src/xnet/xmsger.c:687-716 | after delivery the slot of the awaited serial is empty, also when all 64 slots were full |
| `Receiver.DrainPrefix` | src/xnet/xmsger.c:701-716 | the delivery loop ends exactly where the advance loop stopped |
| `Receiver.TakeInv` | src/xnet/xmsger.c:677-766 | for any packet from any peer, what was delivered is what reassembly makes of the packets taken |
| `Receiver.TakeFollows` | src/xnet/xmsger.c:677-766 | with a conforming peer the receiver stays on the sender's stream, loses nothing it holds, and prepares a true acknowledgement |
| `Receiver.AcceptsIff` | src/xnet/xmsger.c:687-745 | a packet inside the window and at most 32768 serials late counts as new exactly when the receiver does not have it |
| `Receiver.TakeAnswers` | src/xnet/xmsger.c:687-760 | such a packet is held afterwards and nothing else that was not; an early one is acknowledged by its serial, any other by the position of the first packet not held |
| `Protocol.AdvanceExact` | src/xnet/xmsger.c:575-611 | an acknowledgement from the network moves rpos exactly to its position or not at all, whatever the age of its serial |
| `Protocol.AckIsExact` | src/xnet/xmsger.c:556-623 | an acknowledgement whose serial is not stale is admitted exactly when that serial is in the window, and a selective one marks only what the receiver holds |
| `Protocol.HearKeepsFlow` | src/xnet/xmsger.c:549-675 | the whole acknowledgement handler, with fast retransmission, keeps the invariant across both endpoints |
| `Protocol.AckedFlags` | src/xnet/xmsger.c:575-623 | of the packets that are left, the one acknowledged by its serial no longer looks lost, and nothing else changes |
| `Protocol.HurriesExactly` | src/xnet/xmsger.c:607-626 | on unbounded serials, fast retransmission sets in exactly when the acknowledged serial is more than three ahead of the acknowledged position |
| `Protocol.WhatGoesOut` | src/xnet/xmsger.c:358-390 | a sent packet is the next of the window and carries the pending acknowledgement, which is then cleared; a repeated one is the oldest that is not acknowledged, and what it carries has the receiver's position of now |
| `Protocol.HeardOnFirstArrival` | src/xnet/xmsger.c:687-745 | in every reachable state, what a packet carries is heard exactly when the packet was not held before, and it is held afterwards |
| `Protocol.StepKeepsInv` | src/xnet/xmsger.c:871-937 | every step of an endpoint, timeouts included, keeps the invariant of both directions |
| `Protocol.NextKeepsInv` | src/xnet/xmsger.c:549-766 | so does every step of either endpoint |
| `Protocol.RunKeepsInv` | src/xnet/xmsger.c:314-766 | the invariant holds in every state of every run |
| `Delivery.EveryRunIsSafe` | src/xnet/xmsger.c:549-766 | window invariant, in-order delivery, constant retransmissions, message integrity, truthful and ordered reports and byte accounting, in every state of every run |
| `Delivery.DeliveredIsFinal` | src/xnet/xmsger.c:446-498 | what was delivered, accepted or reported is never taken back later in a run |
| `Progress.Fill` | src/xnet/xmsger.c:358-410 | sending goes on until the window is full or nothing is left |
| `Progress.Round` | src/xnet/xmsger.c:871-937 | repeating the oldest packet, its arrival, the answer and its arrival release at least one more packet |
| `Progress.EveryRunCanFinish` | src/xnet/xmsger.c:549-937 | from every state of every run one continuation delivers every message that is queued on either side, unchanged and in order, and reports it |
| `Marks.MarkIff` | src/xnet/xmsger.c:613-623 | for an acknowledged serial of any age: the packet that is marked as arrived is the acknowledged one if and only if the serial is not stale |
| `Marks.PunctualMarks` | src/xnet/xmsger.c:549-675 | in every run in which no stale serial is heard, every packet marked as arrived has arrived |
| `StrayRuns.FalselyMarked` | src/xnet/xmsger.c:909-914 | a run in which a repeated header with a stale serial marks a packet that never arrived |
| `Ahead.HurriesIff` | src/xnet/xmsger.c:626-665 | for any acknowledgement: fast retransmission can try only packets below spos if and only if the release does not pass the acknowledged serial, or no packet that was not launched looks lost |
| `Ahead.PassesIff` | src/xnet/xmsger.c:575-577 | with a serial that is not stale, the release passes it if and only if it ends up behind rpos |
| `Ahead.OrderlyRunsStayBehind` | src/xnet/xmsger.c:626-665 | in every run in which every heard acknowledgement meets the condition of `Ahead.HurriesIff`, the receiver is never ahead of spos |
| `StrayRuns.ReceiverAhead` | src/xnet/xmsger.c:626-665 | a run in which the receiver gets ahead of spos |
| `Messenger.StepKeepsBalance` | src/xnet/xmsger.c:269-277 | queueing, releasing and clearing a channel each keep msger.len - msger.pos equal to the unacknowledged bytes of the live channels |
| `Messenger.EveryRunBalances` | src/xnet/xmsger.c:583-586 | so it holds in every run over any number of channels |
| `Messenger.ProtocolStepMoves` | src/xnet/xmsger.c:549-675 | every step of a channel in the protocol, fast retransmission included, is one or two moves of the account that touch no other channel |
| `Channel.Channel.constructor` | src/xnet/xmsger.c:202-245 | a new channel shows empty rings |
| `Channel.Channel.Send` | src/xnet/xmsger.c:1120-1135 | refines queueing; refuses exactly when the message ring is full |
| `Channel.Channel.SerialMsg` | src/xnet/xmsger.c:314-356 | the slot writes refine serialising one packet |
| `Channel.Channel.SendPack` | src/xnet/xmsger.c:358-410 | the protocol's sending step: the new state, the datagram that goes out, and the packet's count of transmissions, which is one |
| `Channel.Channel.TimedOut` | src/xnet/xmsger.c:903-937 | the protocol's timeout step: the oldest unacknowledged packet goes out again with a renewed header and counts once more |
| `Channel.Channel.ReleaseTo` | src/xnet/xmsger.c:575-611 | the loop over the rings refines the cumulative release, for any acknowledgement |
| `Channel.Channel.FastResend` | src/xnet/xmsger.c:626-665 | tries, oldest first, every packet in front of the acknowledged serial that looks lost and was sent less than twice, up to the first the socket takes, and no other; that one goes out; renews their headers and counts them |
| `Channel.Channel.MarkSlot` | src/xnet/xmsger.c:613-623 | a selective acknowledgement marks the occupant of its slot |
| `Channel.Channel.RecvAck` | src/xnet/xmsger.c:549-675 | for any two 16-bit numbers, the ring holds what the acknowledgement step gives, and fast retransmission has tried what it must exactly when its condition holds |
| `Channel.Channel.RecvMsg` | src/xnet/xmsger.c:446-498 | the delivery loop refines draining and ends with rpos == wpos |
| `Channel.Channel.AdvanceWpos` | src/xnet/xmsger.c:687-716 | the advance loop ends at the least serial not received, after at most 64 turns |
| `Channel.Channel.RecvPack` | src/xnet/xmsger.c:677-766 | refines receiving a datagram, its acknowledgement included |
| `Channel.Channel.SendAck` | src/xnet/xmsger.c:412-424 | refines answering with the prepared acknowledgement |
| `Channel.Channel.UnsentBytes` | src/xnet/xmsger.c:269-277 | channel.wpos - channel.rpos is the sum of the unacknowledged bytes over the live slots of the message ring, the amount a teardown gives back |
| `Blocks.Covered` | src/xnet/xmalloc.c:195-210 | every word of the page lies in exactly one block |
| `Blocks.MergeLayout` | src/xnet/xmalloc.c:260-333 | joining neighbours keeps tiling, flags and the rule that free blocks do not touch |
| `Blocks.SplitLayout` | src/xnet/xmalloc.c:498-531 | so does cutting a block from a free one |
| `Blocks.LeakTest` | src/xnet/xmalloc.c:745-752 | the main block has the size of the whole page if and only if nothing is allocated |
| `PageState.FlagTells` | src/xnet/xmalloc.c:270-312 | a block's flag is even exactly when the block in front is free, and then leads to it |
| `FreeList.UnlinkChain` | src/xnet/xmalloc.c:274-330 | unlinking a block leaves the list of the others |
| `FreeList.InsertChain` | src/xnet/xmalloc.c:316-330 | linking a block adds it to the list and nothing else |
| `Recycle.PayloadWrite` | src/xnet/xmalloc.c:443-465 | a write into an allocated block, also the link of a deferred free, cannot damage the page |
| `Recycle.PopStack` | src/xnet/xmalloc.c:336-346 | popping a recycle list gives one allocated block and leaves the others |
| `Page.Page.constructor` | src/xnet/xmalloc.c:175-215 | a new page satisfies the invariant with nothing allocated |
| `Page.Page.FreePointer` | src/xnet/xmalloc.c:260-333 | whatever neighbours are free: the invariant is restored, exactly this block is no longer allocated, no other user's memory changes, and the main block or the first of the list is at least as large as the block was |
| `Page.NotLast` | src/xnet/xmalloc.c:288-312 | the block in front of the end sentinel is free, so the look at the second next block stays inside the page |
| `Page.Page.Flush` | src/xnet/xmalloc.c:336-346 | afterwards nothing is deferred and no user has lost a block or a byte |
| `Page.Page.Free` | src/xnet/xmalloc.c:442-465 | with the lock the block leaves the page's allocated blocks, the lists stay, and smaller requests can be served; without it the block goes on top of its list; with the lock after all, the list and everything on it is freed; no other block in use changes |
| `Page.Page.DrainList` | src/xnet/xmalloc.c:452-457 | exactly the blocks of one list are freed |
| `Page.Page.Malloc` | src/xnet/xmalloc.c:473-542 | refuses exactly when neither the main block nor the first of the list has the room, and never on a page with nothing allocated that is large enough; otherwise the block is aligned, disjoint from every block in use, changes none of them, and is large enough if and only if the request is at most 2^64 - 56 bytes |
| `Page.Page.UserWrite` | src/xnet/xmalloc.c:538-541 | a user writing his own block keeps the page invariant |
| `Page.AllocatedPlaced` | src/xnet/xmalloc.c:427-442 | the trailer behind an allocated block names pool and page for as long as the block lives |
| `Page.TagNames` | src/xnet/xmalloc.c:427-435 | pool and page number read back from a trailer are the ones that were put into the flag |
| `Page.AlignIsEnough` | src/xnet/xmalloc.c:48-50 | the aligned size is large enough if and only if the sum does not wrap 64 bits |
| `Page.RequestIff` | src/xnet/xmalloc.c:486-489 | neither the aligned nor the reserved size wraps if and only if the request is at most 2^64 - 56 bytes |
| `Page.WrapCutsBack` | src/xnet/xmalloc.c:489-531 | where the reserved size wraps, the room test passes on every page and the rest of the main block begins on it or up to 32 bytes in front of it |
| `Page.WrapHitsNeighbour` | src/xnet/xmalloc.c:525-531 | on a page with a sound layout that place lies inside the block that directly precedes the main one, or is the main block itself |
| `Page.Page.LooksLeaked` | src/xnet/xmalloc.c:732-777 | after a flush the leak test answers exactly whether a user still has a block |
| `AvlTurn.FixLBalances` | src/xlib/avlmini.c:141-159 | one single or double rotation restores balance and loses at most one level |
| `AvlTurn.FixLOrder` | src/xlib/avlmini.c:141-159 | it keeps the in-order sequence |
| `AvlTurn.FixRBalances` | src/xlib/avlmini.c:161-179 | the same for the mirrored case |
| `AvlTurn.FixROrder` | src/xlib/avlmini.c:161-179 | the same for the mirrored case |
| `AvlTurn.ClimbHeights` | src/xlib/avlmini.c:181-230 | one level up the height is again at most one off, and not too low after an insertion: what makes the early exits right |
| `Avl.Avl.RotateLeft` | src/xlib/avlmini.c:78-92 | the whole pointer change of a rotation |
| `Avl.Avl.RotateRight` | src/xlib/avlmini.c:94-108 | the whole pointer change of a rotation |
| `Avl.Avl.FixLeft` | src/xlib/avlmini.c:141-159 | memory afterwards holds the repaired tree in its unchanged surroundings |
| `Avl.Avl.FixRight` | src/xlib/avlmini.c:161-179 | memory afterwards holds the repaired tree in its unchanged surroundings |
| `Avl.Avl.Rebalance` | src/xlib/avlmini.c:181-205 | from a subtree one level too high or too low, the loop ends with an AVL tree of the same sequence |
| `Avl.Avl.PostInsert` | src/xlib/avlmini.c:207-230 | the loop, which stops at the first unchanged height, ends with an AVL tree that has one more node |
| `Avl.Avl.Erase` | src/xlib/avlmini.c:232-275 | exactly the victim leaves the sequence; links, heights and balance are right |
| `Avl.Avl.Find` | src/xlib/avlmini.c:366-385 | the node the probe accepts, or NULL when there is none; it looks at no more nodes than the tree is high, those on the way the probe's answers point, and the height is logarithmic in the count |
| `Avl.Avl.Add` | src/xlib/avlmini.c:413-444 | a taken key is refused and its holder told; else the node enters at its place and nothing else changes |
| `Avl.Avl.Remove` | src/xlib/avlmini.c:447-455 | the node leaves the sequence and is marked as being in no tree; a node in no tree is left alone |
| `Avl.Avl.First` | src/xlib/avlmini.c:8-15 | the first element of the sequence |
| `Avl.Avl.Last` | src/xlib/avlmini.c:17-24 | the last element of the sequence |
| `Avl.Avl.Next` | src/xlib/avlmini.c:26-43 | the next element of the sequence, NULL at the end |
| `Avl.Avl.Prev` | src/xlib/avlmini.c:45-62 | the previous element of the sequence, NULL at the start |
| `AvlOrder.NeighboursInverse` | src/xlib/avlmini.c:26-62 | next and prev undo each other |
| `AvlOrder.SizeBound` | src/xlib/avlmini.c:366-385 | a balanced tree of height h has at least Fib(h + 2) - 1 nodes |
| `Avl.Avl.Tear` | src/xlib/avlmini.c:279-309 | lets go of exactly one leaf and leaves the links of the rest intact |
| `Avl.Avl.Clear` | src/xlib/avlmini.c:467-481 | terminates, hands out every node exactly once, and leaves count 0 |
| `TableKeys.BytesCompare` | src/xnet/xtable.c:14-30 | the loop compares byte by byte up to the shorter length, then by length |
| `TableKeys.CompareFirst` | src/xnet/xtable.c:14-30 | the first byte in which two keys differ decides, and if one begins the other, the length |
| `TableKeys.CompareZero` | src/xnet/xtable.c:14-30 | zero exactly for equal keys |
| `TableKeys.KeysAreOrdered` | src/xnet/xtable.c:14-30 | the comparison is a total order on keys that are not empty |
| `TableList.RunFromHead` | src/xnet/xtable.c:98-116 | the nodes of a bucket are one run of the list that starts at its head |
| `TableList.SecondInRun` | src/xnet/xtable.c:142-146 | the node behind a head is of the same bucket exactly when the bucket holds more than one |
| `TableList.InsertLinks` | src/xnet/xtable.c:98-116 | the four link writes insert the node in the ring |
| `TableList.DropLinks` | src/xnet/xtable.c:156-158 | the two link writes take it out |
| `Table.ShapeHead` | src/xnet/xtable.c:131-146 | when a head leaves, the promoted successor, the counts and the tree agree again |
| `Table.Table.Create` | src/xnet/xtable.c:50-62 | a node that is in no list takes its string, whatever stood at its address before; table, list, tree and contents are sound and unchanged |
| `Table.Table.Add` | src/xnet/xtable.c:89-121 | refines adding to a map where the first value of a key stays, for any hash and any address that is not in the table |
| `Table.Table.Del` | src/xnet/xtable.c:123-167 | refines removal: returns the value of the key, which is gone afterwards; other keys are untouched |
| `Table.Table.Find` | src/xnet/xtable.c:169-187 | returns the value of the key, or nothing |
| `Trie.Trie.Add` | src/xnet/xtree.h:49-103 | refines storing a value under a key, new or not; route, branch and leaves of every node are those of the additions that were not taken back |
| `Trie.Trie.Find` | src/xnet/xtree.h:106-133 | the value stored under exactly this key, or nothing |
| `Trie.Trie.Del` | src/xnet/xtree.h:136-205 | returns and clears the value of the key; the tree stays sound if and only if the key can be taken back or nothing continues it, and then there is a node for a path exactly when an addition goes through it; otherwise the total is one too low, and a single addition behind the key is cut off |
| `Trie.DeletedPrefix` | src/xnet/xtree.h:136-205 | for every key and continuation, a run in which deleting the key makes the stored continuation unreachable |
| `Trie.Trie.Rise` | src/xnet/xtree.h:320-412 | terminates; lists nodes of stored keys with their values, each once, in the byte order of the keys, from the root or, behind its own node, from a key; they are the first ones, and all of them or as many as the limit says |
| `Trie.Trie.Clear` | src/xnet/xtree.h:208-256 | terminates, hands out the value of every stored key exactly once and leaves the root alone; its count is zero if and only if there were as many additions as values |
| `TrieClear.Freed` | src/xnet/xtree.h:239-252 | freeing a leaf leaves the rest of the tree standing, the branch counts included |
| `TrieCut.ChainFree` | src/xnet/xtree.h:177-188 | freeing a node on the way up leaves the way above it intact and makes the rest of the path unreachable |
| `TrieKeys.NodeIff` | src/xnet/xtree.h:136-163 | there is a node for a key exactly when some key that was added and not taken back continues it |
| `TrieShape.NibInjective` | src/xnet/xtree.h:61-97 | different keys take different paths |
| `TrieOrder.NibOrder` | src/xnet/xtree.h:367-412 | the order of the paths is the byte order of the keys, a key before its continuations |
| `XlineFormat.NumberOfDigits` | src/xnet/xline.h:31-47 | reading a number undoes writing it |
| `XlineFormat.BigEndianIffPalindrome` | src/xnet/xline.h:65-81 | on the other branch it does so if and only if the bytes are a palindrome |
| `XlineFormat.BigEndianFails` | src/xnet/xline.h:65-81 | a number for which it does not |
| `XlineFormat.LineBytes` | src/xnet/xline.h:7-40 | a line byte by byte: the type byte of each kind of value, byte i of the number as n / 256^i modulo 256, and what follows |
| `XlineFormat.EncKeyBytes` | src/xnet/xline.h:191-199 | a key byte by byte: its length with the zero, at most 64 bytes of it, and the zero |
| `XlineFormat.LineSizes` | src/xnet/xline.h:115-116 | __xl_sizeof_body and __xl_sizeof_line of every encoded value |
| `XlineFormat.EncodingSeen` | src/xnet/xline.h:448-478 | wherever an encoding stands, stepping through it shows the encoded tree, its keys cut to 64 bytes, and covers exactly its bytes |
| `XlineFormat.SeesOne` | src/xnet/xline.h:448-478 | a line holds one tree only |
| `XlineFormat.RoundTripIff` | src/xnet/xline.h:193-201 | writing and parsing give the same tree if and only if no key is longer than 64 bytes |
| `XlineFrame.Frame.Reserve` | src/xnet/xline.h:203-213 | enough room and the old contents when memory is granted; otherwise a frame whose size is wrong |
| `XlineFrame.Frame.FillKey` | src/xnet/xline.h:193-201 | appends the encoded key |
| `XlineFrame.Frame.AddScalar` | src/xnet/xline.h:257-404 | appends exactly the encoded entry and refreshes the header |
| `XlineFrame.Frame.AddBlank` | src/xnet/xline.h:296-315 | without a source, an entry of the asked size whose bytes are what the memory held |
| `XlineFrame.Frame.AddObj` | src/xnet/xline.h:317-335 | appends the key and the whole foreign line |
| `XlineFrame.Frame.ListAppend` | src/xnet/xline.h:406-437 | appends the whole foreign line, with or without a list header |
| `XlineFrame.Frame.Begin` | src/xnet/xline.h:216-245 | appends the key and leaves room for a header |
| `XlineFrame.Frame.End` | src/xnet/xline.h:233-255 | writes the header over the room that was left, and changes nothing else |
| `XlineFrame.BuildEntries` | src/xnet/xline.h:216-437 | any tree, built in place from any buffer size, is its encoding |
| `XlineFrame.BuildSeparately` | src/xnet/xline.h:317-335 | an object built in a frame of its own and added equals the object built in place if and only if it does not end in an empty object |
| `XlineFrame.FrameLineIff` | src/xnet/xline.h:317-331 | as much of a frame as its header says is the encoded object if and only if the last thing added is not an empty object |
| `XlineFrame.HeaderIff` | src/xnet/xline.h:233-255 | a stale header becomes right if and only if the last thing added is not an empty object |
| `XlineFrame.MarkedHeader` | src/xnet/xline.h:257-404 | then the header is right whatever it was before |
| `XlineParser.Parser.Next` | src/xnet/xline.h:467-478 | the entries come one by one with key and value, then NULL |
| `XlineParser.Parser.ListNext` | src/xnet/xline.h:457-465 | the items come one by one, then NULL |
| `XlineParser.Parser.Find` | src/xnet/xline.h:480-513 | terminates; finds the first entry with the key ahead of the cursor, else behind it; a miss leaves the cursor where it was |
| `XlineParser.UniqueFromAnywhere` | src/xnet/xline.h:480-513 | a key that occurs once is found from every cursor |
| `XlineParser.LongKeyLost` | src/xnet/xline.h:193-201 | a key longer than 64 bytes is never found |
| `XlineParser.Parser.SetValue` | src/xnet/xline.h:556-563 | the object holds the number in place of the value if and only if the overwritten line has nine bytes |
| `Pipe.Pipe.Write` | src/xnet/xpipe.h:27-54 | appends as much as there is room for to the queue of bytes |
| `Pipe.Pipe.Read` | src/xnet/xpipe.h:96-123 | takes a prefix of the queue, short only when it runs empty |
| `Pipe.PowerTest` | src/xnet/xpipe.h:229 | len & (len - 1) is zero if and only if len is a power of two |
| `Pipe.RoundUp` | src/xnet/xpipe.h:229-236 | a power of two is kept, anything else grows to the next one; zero if and only if the length is zero or above 2^63 |
| `Pipe.Pipe.constructor` | src/xnet/xpipe.h:216-256 | an empty queue at least as large as asked for, usable if and only if the rounded length is not zero |
| `PipeThreads.RunKeepsInv` | src/xnet/xpipe.h:56-175 | mutex, block flags, wait set and bytes stay consistent under every interleaving, those between the counter test and the wait included |
| `PipeThreads.EveryRunIsSafe` | src/xnet/xpipe.h:66-170 | what is read is a prefix of what was written; reader and writer never both sleep; a sleeper that could go on is about to be notified |
| `PipeThreads.StuckMeansDone` | src/xnet/xpipe.h:56-175 | no deadlock: when no thread can move, one is out of the pipe and the other sleeps rightly or is out too |
| `PipeThreads.EveryCallIsWhole` | src/xnet/xpipe.h:66-170 | unless the pipe is broken, a call returns only with every byte moved; what was sent is the data of the finished calls and the written part of the current one, what was received the same on the reader's side, and the one is a prefix of the other |
| `PipeThreads.EveryRoundMoves` | src/xnet/xpipe.h:27-123 | in every reachable state a round moves all that is left or all there is room for, and at least one byte, unless the pipe is full or empty; a thread that waits does nothing until it is woken |
| `PipeThreads.BrokenLetsOut` | src/xnet/xpipe.h:66-150 | on a broken pipe every action of a thread brings it nearer to its return, which is at most twelve actions away |
| `Sha256.RotationsAgree` | src/xlib/xsha256.c:69-72 | ROR32 written with ROL32 is the rotation of section 3.2 of FIPS 180-4 |
| `Sha256.SigmasRotate` | src/xlib/xsha256.c:5-8 | the four sigma functions are the rotations of the standard |
| `Sha256.ChChooses` | src/xlib/xsha256.c:3 | bit by bit, the first argument chooses between the other two |
| `Sha256.MajAgrees` | src/xlib/xsha256.c:4 | bit by bit, what two of the arguments agree on |
| `Sha256Vector.RoundConstantIsRoot` | src/xlib/xsha256.c:10-27 | every K[i] is the first 32 bits of the fractional part of the cube root of the i-th prime |
| `Sha256Vector.InitIsRoots` | src/xlib/xsha256.c:137-144 | the initial state, by the square roots of the first eight primes |
| `Sha256Vector.AbcDigest` | src/xlib/xsha256.c:74-126 | the digest of "abc" is the one printed in the standard, word by word and round by round |
| `Sha256Vector.AbcBytes` | src/xlib/xsha256.c:198-202 | and byte by byte as it is handed out |
| `Sha256.Context.CompressBlock` | src/xlib/xsha256.c:92-129 | the three loops compute the compression of section 6.2.2 of FIPS 180-4 |
| `Sha256.Context.Update` | src/xlib/xsha256.c:147-179 | the state is the hash of all whole blocks fed so far and the buffer holds the rest |
| `Sha256.LengthBytes` | src/xlib/xsha256.c:195-196 | the two 32-bit writes are the 64-bit length in bits |
| `Sha256.Context.Finish` | src/xlib/xsha256.c:181-203 | the digest of the message padded as in section 5.1.1 of FIPS 180-4, in both padding cases |
| `Sha256.HashPieces` | src/xlib/xsha256.c:147-203 | any chunking gives the digest of the whole |

## Left out

Modelling choices:

- XLTP: one live channel between two conforming endpoints that both exist from the start. Creation and teardown handshakes, acks without a channel, and the local enqueue that has no space test are not modelled.
- XLTP: clocks, round trip times, thresholds and pacing only decide when something is sent; sends, timeouts and the success of the socket are nondeterministic.
- XLTP: a frame pointer in a packet is represented by the message slot it came from; the message types are the three that carry user data.
- Progress.EveryRunCanFinish: says that a completing continuation exists, not that the network provides it.
- Page allocator: one initialised page with its lock modelled as steps; pool growth, start-up races, aligned_alloc, realloc and calloc are not modelled. NULL offsets are -1 and addresses are word offsets.
- Page.Page.Malloc: is for requests that `Page.FairlyServed` admits; for the 39 sizes from 2^64 - 55 to 2^64 - 17 the source damages the block in front of the main one or the main header, and the model follows it up to that (`Page.WrapHitsNeighbour`).
- Avl.Avl: memory is a map from addresses to nodes, and the comparison is a total preorder, as the source demands; avl_tree_replace and avl_tree_nearest would only add easy members.
- Table.Table: keys are not empty (the comparison loop of the source runs past an empty one), and value 0 is the null pointer. search_table_clear and index_table are not modelled; number_compare of index_table is not a total order.
- Trie.Trie.Add: memory is always granted, and the count of route, 64 bits wide, does not wrap; keys are not empty (the source would use an unset pointer).
- Trie.Trie.Del: keys are not empty (the source would follow the parent of the root).
- Trie: tree_drop, tree_min and tree_max are not modelled.
- XlineFrame.Frame.AddScalar: a word is a string that ends with a zero.
- XlineFrame.BuildSeparately: is for frames whose header, garbage included, does not reach beyond the frame; the code would read past it.
- XlineParser.Parser: is for memory that holds an object, as the source checks no bounds; lengths are below 2^64. xl_format only prints.
- Pipe.Pipe: the counters of the pipe are unbounded.
- PipeThreads: one writer, one reader and one thread that breaks the pipe; with several writers or readers the argument does not hold.
- Sha256.Context: the block counter is unbounded; the length written is its value modulo 2^64, as in the source.
- src/xnet/xheap.h, src/xnet/uuid.c, src/xlib/xxhash.c, src/xnet/xltp.c, src/xnet/xlio.c and src/xapi are not part of this model.
