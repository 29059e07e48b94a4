# Verified models of the practice programs

This project models six programs of the repository in Dafny and proves what they
are for. Each program has its own modules.

| program | modules |
| --- | --- |
| AVL phonebook (`module2/pract4/pract4_3`) | `Contacts`, `AvlTree`, `AvlHeap`, `Phonebook` |
| shared-memory producer and consumers (`module3/practice4`) | `SharedBlocks` |
| taxi dispatcher and drivers (`module3/cross2`) | `Taxi`, `Decimal` |
| raw UDP messenger (`module3/cross1`) | `Checksum`, `Packets`, `Sessions` |
| file copy through a pipe (`module3/practice1`), framed chat (`module3/practice7`) | `FilePipe`, `FileCopy`, `Frames`, `Bytes` |
| sorted linked lists (`module2/pract4/pract4_1`, `module2/pract4/pract4_2`) | `ContactChain`, `PriorityQueue` |

`Sequences` and `Bytes` hold what several of them share. Verify everything with
`dafny verify dfyconfig.toml`.

## How the models are built

**AVL phonebook.** `AvlTree` describes a tree as a value that says which node sits
where, what it holds and what height it caches, and defines insertion, deletion
and the rotations on such values, branch by branch. `AvlHeap` holds the recursive
routines as methods that rewrite `left`, `right`, `height` and `data` of nodes;
each is proved to turn a heap that holds a tree into a heap that holds the value
function's result. Contact addresses are fixed numbers, so the comparator is a
strict total order. `Phonebook` adds the list with its count, and the rename as
delete, edit, reinsert. A tree item records the key its contact entered with; the
list's invariant says that every contact in the tree still has that key.

**Shared memory.** Every critical section is one method on the shared array, and
one turn of a transition system whose runs interleave any number of consumers
with the producer's polls. The model starts with the producer's layout loop on an
array of any size and any earlier contents; calls of `rand()` are a parameter.

**Taxi.** Control process, driver processes and FIFOs form one transition system;
lines are the texts the program writes and parses. The handlers of the control
process and the two pieces of the driver loop are also given as methods on
objects, proved to make exactly the transitions. fork succeeds with a pid no
driver has, lines are read and written whole, the clock does not go back and
`select` does not time out early.

**UDP messenger.** Packets are byte sequences on a little-endian machine, built
in place in a buffer. The session table is the program's array with swap-remove,
proved to be a map.

**Wire formats.** A descriptor is the sequence of bytes written and not yet read;
`Read` and `Write` move any positive number of bytes the caller cannot choose, so
every result holds for every splitting of the stream. `FilePipe` has the stream of
`practice1` and the loops of both its processes; `FileCopy` runs parent and child
at the same time on one disk and one pipe, as a transition system in which either
may take the next step. A disk maps paths to contents; different paths name
different files, a path on it can be opened, and the pipe never fills up. The relay
of `practice7` takes the turns of its connected clients in any order.

**Lists.** Entries are heap objects relinked as in the program; a ghost sequence
names them in list order. `prev` of `priorityqueue.c`, a pointer to a link, is the
entry that owns the link, or null for the head of the queue.

## Findings

- `module3/practice1/practice1.c:43-142`: however the two processes are scheduled
  and whatever is on disk, every copy is right if and only if no path is longer than
  511 characters and no path is an earlier path of the list with `.copy` behind it
  (`FileCopy.CopiesIffFitAndUnchained`). For the arguments `a a.copy` the child may
  overwrite `a.copy` before the parent reads it (`FileCopy.ChainedFails`); a longer
  path is cut by `read_string` (`FileCopy.LongPathFails`). The byte stream by itself
  is undone if and only if the paths fit (`FilePipe.CopiesIffNamesFit`). A path of
  exactly 511 characters leaves its terminator in the pipe, which the child reads as
  an empty command and ignores.
- `module3/cross1/server.c:169-175`: a reply fits the packet buffer if and only if
  the text up to its first zero byte, a space and the digits of the counter come to
  at most 2020 bytes (`Sessions.ReplyFitsIff`). The longest message the server
  accepts has a reply that does not fit (`Sessions.LongestMessageDoesNotFit`); the
  replies to the clients of this repository always fit, over every history of fewer
  than 2^31 packets (`Sessions.ClientsAreServed`).
- `module3/practice7/client.c:57-79`: repeated `recv_frame` returns the frames sent
  if and only if no payload is over `MAX_PAYLOAD` (`Frames.DecodeOfEncode`). This
  concerns foreign peers: the clients of this repository send no such frame.
- `module3/practice7/client.c:114-118`: a file arrives under its base name if and
  only if that has at most 127 characters (`Frames.FileArrives`); of a longer one the
  first 127 arrive (`Frames.ShareFile`).

## Model

| member | source | states |
|---|---|---|
| Contacts.ComparatorIsStrictTotalOrder | module2/pract4/pract4_3/phonebook.c:49-59 | contact_compare answers 0 only for the same key, flips its sign when the arguments are swapped, and "before" is transitive |
| Contacts.BeforeTransitive | module2/pract4/pract4_3/phonebook.c:49-59 | the four-key comparison chains across ties of any of the keys |
| Contacts.StrCmpIsLexicographic | module2/pract4/pract4_3/phonebook.c:50-55 | the comparison of two names is dictionary order: at the first difference the lesser character, or the end, comes first |
| Contacts.BeforeIsByName | module2/pract4/pract4_3/phonebook.c:49-59 | keys are in the order of first name, then last name, then middle name, then address |
| Contacts.ContactsCompareByName | module2/pract4/pract4_3/phonebook.c:49-59 | contact_compare puts two contacts in that order of the names they have now |
| AvlTree.RotateRightKeeps | module2/pract4/pract4_3/phonebook.c:79-87 | rotate_right keeps in-order contents, set of nodes and absence of sharing |
| AvlTree.RotateLeftKeeps | module2/pract4/pract4_3/phonebook.c:89-97 | rotate_left keeps in-order contents, set of nodes and absence of sharing |
| AvlTree.FixInsertShape | module2/pract4/pract4_3/phonebook.c:117-135 | comparing keys picks the rotation that fits the imbalance: if the heavy child leans to the side of the key, the result has exact heights, is balanced and one level lower |
| AvlTree.InsertKeepsShape | module2/pract4/pract4_3/phonebook.c:99-136 | insertion of any key keeps cached heights exact and every balance in -1..1, grows height by at most 1, and a tree that grew leans to the side of the key |
| AvlTree.InsertIsCorrect | module2/pract4/pract4_3/phonebook.c:99-136 | inserting a contact not yet present into any valid AVL tree gives a valid AVL tree whose in-order sequence gained exactly that contact at its place, and which gained exactly the new node |
| AvlTree.InsertPresent | module2/pract4/pract4_3/phonebook.c:108-115 | inserting a key the tree holds changes nothing |
| AvlTree.FixDeleteShape | module2/pract4/pract4_3/phonebook.c:171-191 | the rotation chosen by the children's balance restores exact heights and balance, lowering the node by at most one level |
| AvlTree.DeleteKeepsShape | module2/pract4/pract4_3/phonebook.c:146-192 | deletion of any key keeps cached heights exact and every balance in -1..1, and lowers the height by 0 or 1 |
| AvlTree.DeleteIsCorrect | module2/pract4/pract4_3/phonebook.c:146-192 | deleting any contact from any valid AVL tree, copy-child and successor cases included, gives a valid AVL tree without exactly that contact; exactly one node is freed and it is no longer reachable |
| AvlTree.DeleteRootItems | module2/pract4/pract4_3/phonebook.c:154-169 | when the contact is at the root, the root's place is taken so that the other contacts keep their order |
| AvlTree.CopyChildFrees | module2/pract4/pract4_3/phonebook.c:155-163 | copying the only child into its parent leaves the parent's node in the tree and frees the child's |
| AvlTree.DeleteAbsent | module2/pract4/pract4_3/phonebook.c:146-192 | deleting a key the tree lacks changes nothing and frees nothing |
| AvlTree.MinItemIsFirst | module2/pract4/pract4_3/phonebook.c:138-144 | min_value_node finds the first contact of the in-order sequence |
| AvlTree.BalancedIsFull | module2/pract4/pract4_3/phonebook.c:99-192 | a balanced tree of height h holds at least Fib(h+2)-1 contacts |
| AvlTree.DepthIsLogarithmic | module2/pract4/pract4_3/phonebook.c:99-192 | the nested calls of insert and delete, which AvlHeap.AvlInsert and AvlHeap.AvlDelete count, successor search included, are logarithmic in the number of contacts |
| AvlHeap.RotateRightAt | module2/pract4/pract4_3/phonebook.c:79-87 | relinking in place turns the heap's tree into its right rotation, heights recomputed |
| AvlHeap.RotateLeftAt | module2/pract4/pract4_3/phonebook.c:89-97 | relinking in place turns the heap's tree into its left rotation, heights recomputed |
| AvlHeap.RebalanceAfterInsert | module2/pract4/pract4_3/phonebook.c:118-135 | the four key-chosen cases in place; the links each rotation follows are there |
| AvlHeap.AvlInsert | module2/pract4/pract4_3/phonebook.c:99-136 | in-place insertion computes the tree function on whatever nodes it is given, allocating one node unless the key is present, with the nested calls the depth function says |
| AvlHeap.MinValueNode | module2/pract4/pract4_3/phonebook.c:138-144 | the walk down the left links ends at the least contact |
| AvlHeap.RebalanceAfterDelete | module2/pract4/pract4_3/phonebook.c:173-191 | the four balance-chosen cases in place; the links each rotation follows are there |
| AvlHeap.CopyChild | module2/pract4/pract4_3/phonebook.c:161-163 | copying the only child over its parent, then rebalancing |
| AvlHeap.AvlDeleteTwoChildren | module2/pract4/pract4_3/phonebook.c:164-168 | taking over the successor's contact and deleting it below |
| AvlHeap.AvlDelete | module2/pract4/pract4_3/phonebook.c:146-192 | in-place deletion computes the tree function and frees exactly the node the model names, with the nested calls the depth function says |
| Phonebook.StepRefines | module2/pract4/pract4_3/phonebook.c:194-197 | every add, edit and remove keeps a valid AVL tree with count equal to its size and does to the in-order sequence what it would do to a sorted sequence |
| Phonebook.EveryRunRefines | module2/pract4/pract4_3/phonebook.c:194-252 | over every run from the empty list the phonebook is the sorted sequence of distinct contacts the operations build, in the order of their names, count is its length, and the height is bounded by the size |
| Phonebook.InsertSortedAtPlace | module2/pract4/pract4_3/phonebook.c:99-136 | insertion into the sorted sequence puts the contact at the only place that keeps it sorted |
| Phonebook.Rename | module2/pract4/pract4_3/phonebook.c:454-464 | deleting, rewriting the field and reinserting leaves a tree in which every key is current again, though the contact's key changed |
| Phonebook.ContactList.Insert | module2/pract4/pract4_3/phonebook.c:194-197 | the list gains exactly the contact at its sorted place and count grows by one |
| Phonebook.ContactList.GetByIndex | module2/pract4/pract4_3/phonebook.c:237-243 | answers the contact at that index of the sorted sequence, NULL outside it |
| Phonebook.GetByIndexHelper | module2/pract4/pract4_3/phonebook.c:225-235 | the in-order walk with a running counter stops at the target index or has counted the whole subtree |
| Phonebook.ContactList.Remove | module2/pract4/pract4_3/phonebook.c:245-252 | takes out exactly the contact at the index, frees its node, lowers count; an index outside changes nothing |
| Phonebook.ContactList.Edit | module2/pract4/pract4_3/phonebook.c:454-464 | rewrites the chosen field of the contact at the index, leaves its other fields, and moves the contact to its new sorted place, count unchanged |
| Phonebook.ContactList.List | module2/pract4/pract4_3/phonebook.c:363-369 | prints the contacts in sorted order under consecutive indices |
| Phonebook.ContactList.Find | module2/pract4/pract4_3/phonebook.c:392-415 | prints the lines of the matching contacts in order |
| Phonebook.FoundExactly | module2/pract4/pract4_3/phonebook.c:392-402 | a line is printed exactly if the last or the first name of its contact contains the query, under the index that lookup answers it for |
| Phonebook.OccursSomewhere | module2/pract4/pract4_3/phonebook.c:395-396 | strstr finds the query exactly if it stands at some position of the text |
| Phonebook.EditedFields | module2/pract4/pract4_3/phonebook.c:456-463 | a menu choice changes its own field and no other |
| SharedBlocks.Layout | module3/practice4/practice4.c:49-72 | from any earlier contents and for any array size the blocks tile [1,pos) inside the array, at most 2 ints stay unused behind them untouched, the chain from mem[0] visits exactly the blocks, and sizes and values are the numbers drawn, in order and none left out |
| SharedBlocks.WriteBlock | module3/practice4/practice4.c:55-60 | stores count, end of chain and the numbers drawn, and nothing elsewhere |
| SharedBlocks.DrawBlock | module3/practice4/practice4.c:51-60 | the size of a block is drawn between 1 and what there is room for, at most 5 |
| SharedBlocks.ChainGrows | module3/practice4/practice4.c:59-69 | linking a block behind the last one makes the chain one block longer |
| SharedBlocks.OffsetsGrow | module3/practice4/practice4.c:49-70 | offsets grow strictly along the chain and every block is inside the tiled part |
| SharedBlocks.ChainSurvivesClaims | module3/practice4/practice4.c:117-123 | after any number of claims the chain can still be walked to its end, and the walk stops at the first unclaimed block |
| SharedBlocks.ClaimNext | module3/practice4/practice4.c:136 | zeroing the count of the first unclaimed block claims that block and breaks no link |
| SharedBlocks.Walk | module3/practice4/practice4.c:117-123 | the consumer's walk terminates and finds the first unclaimed block, or -1 |
| SharedBlocks.Scan | module3/practice4/practice4.c:128-135 | the loop finds the least and the greatest value of the block |
| SharedBlocks.Claim | module3/practice4/practice4.c:115-139 | a consumer's critical section reports offset, count, min and max of the values the producer wrote, and claims that block only |
| SharedBlocks.Poll | module3/practice4/practice4.c:80-90 | the producer's poll says done exactly if every block is claimed |
| SharedBlocks.StepKeepsInv | module3/practice4/practice4.c:78-149 | every turn of any process keeps: reports made are those of the first blocks, exactly those are claimed, exit and announcement only when all are |
| SharedBlocks.ClaimIsTurn | module3/practice4/practice4.c:115-147 | what the claiming code answers is a turn of the transition system |
| SharedBlocks.EveryInterleaving | module3/practice4/practice4.c:78-149 | under every interleaving the n-th report is the n-th block's as written, no consumer turn is lost while a block is left, each further turn is an exit, and nobody exits or announces early |
| SharedBlocks.NoBlockTwice | module3/practice4/practice4.c:113-149 | offsets reported grow, so no block is reported twice |
| Decimal.AtoiOfItoa | module3/cross2/cross2.c:133 | atoi reads back every number %d wrote |
| Decimal.ItoaIsNumeral | module3/cross2/cross2.c:129 | %d writes digits without a leading zero, behind a minus sign if the number is negative |
| Decimal.NumeralIsUnique | module3/cross2/cross2.c:129 | no other such text has the same value |
| Taxi.TaskAcceptedWhenFree | module3/cross2/cross2.c:125-137 | in every run a TASK is accepted exactly when now is at or past the deadline of the last accepted task, for the seconds in the line; else the reply is Busy and the numeral of exactly the time left |
| Taxi.StatusTellsTimeLeft | module3/cross2/cross2.c:138-144 | in every run STATUS is answered Busy and the numeral of exactly the positive time left, else Available |
| Taxi.TaskRoundTrip | module3/cross2/cross2.c:202-269 | a task sent to a resting driver is accepted for the seconds asked and "task sent" printed, or Busy and the time left is printed |
| Taxi.StatusRoundTrip | module3/cross2/cross2.c:222-270 | a status request to a resting driver prints its pid with Busy and the time left, or with Available |
| Taxi.TaskIsQueued | module3/cross2/cross2.c:216-219 | send_task puts a line with the numeral of the timer into the FIFO of that driver and changes nothing else |
| Taxi.RequestRefused | module3/cross2/cross2.c:204-214 | a request to nobody, or to a driver with one pending, only prints which of the two it is |
| Taxi.AllAreAsked | module3/cross2/cross2.c:240-248 | every driver without a pending request gets STATUS, after which none is without; the others are left alone |
| Taxi.DriverIsAdded | module3/cross2/cross2.c:168-200 | one driver more, with nothing asked, queued or accepted, found under its pid, while there are fewer than 64 |
| Taxi.EventKeepsInv | module3/cross2/cross2.c:78-294 | every event of control process, driver or clock keeps the bookkeeping of requests, deadlines and shutdown |
| Taxi.OneRequestInFlight | module3/cross2/cross2.c:202-248 | for every driver not yet sent STOP, commands queued plus in processing plus replies queued is 1 if a request is pending and 0 otherwise, and the item is of the pending kind |
| Taxi.RepliesAreExpected | module3/cross2/cross2.c:250-279 | the unexpected-reply branch is never taken, and "task sent" is printed exactly when the driver accepted a task not yet reported |
| Taxi.AcceptedTasksDoNotOverlap | module3/cross2/cross2.c:125-137 | over every run of a driver an earlier accepted task ends before a later one starts |
| Taxi.DriverCanMove | module3/cross2/cross2.c:80-151 | a driver sent STOP that is not gone can always take a step |
| Taxi.DrainingRun | module3/cross2/cross2.c:281-294 | after shutdown the drivers' steps and the STOPs still to send are bounded by a measure over queues and processes, and each driver reads what was queued and its STOP, no more |
| Taxi.ShutdownEnds | module3/cross2/cross2.c:281-294 | however the sending of the STOPs interleaves with the drivers, every driver reads at most two lines whatever was outstanding, and when none can move all are gone, so the waitpid loop ends |
| Taxi.Process.BeforeSelect | module3/cross2/cross2.c:85-99 | forgets a passed deadline, else waits exactly the time left |
| Taxi.Process.Serve | module3/cross2/cross2.c:122-150 | the reply and the new deadline are those of the transition system; in terms of the last accepted task the reply is OK if it is over, else Busy and the numeral of the time left |
| Taxi.Control.FindDriver | module3/cross2/cross2.c:159-166 | finds the first driver with the pid, or -1 |
| Taxi.Control.CreateDriver | module3/cross2/cross2.c:168-200 | adds an idle driver unless the limit is reached |
| Taxi.Control.SendTask | module3/cross2/cross2.c:202-220 | queues the TASK line and sets pending, or refuses an unknown or busy driver |
| Taxi.Control.GetStatus | module3/cross2/cross2.c:222-238 | queues the STATUS line and sets pending, or refuses an unknown or busy driver |
| Taxi.Control.GetDrivers | module3/cross2/cross2.c:240-248 | asks every driver without a pending request, and no other |
| Taxi.Control.HandleReply | module3/cross2/cross2.c:250-279 | prints what the pending kind and the reply call for and clears pending; a request was pending, and every accepted task has then been reported |
| Taxi.Control.SendStop | module3/cross2/cross2.c:283-286 | queues STOP to the next driver, which is a step of the transition system |
| Taxi.Control.Shutdown | module3/cross2/cross2.c:281-286 | queues STOP to every driver once |
| Checksum.Add | module3/cross1/server.c:16-22 | the loop adds the host-order words and an odd last byte, modulo 2^32 |
| Checksum.Done | module3/cross1/server.c:24-28 | the fold loop terminates and the complement of the fold is returned |
| Checksum.NetSumIsOfWords | module3/cross1/server.c:16-22 | the reference sum adds big-endian words, the last one padded with a zero byte |
| Checksum.NetBytesAreBigEndian | module3/cross1/server.c:47-49 | htons lays a number out with the high byte first |
| Checksum.FoldIsModular | module3/cross1/server.c:26 | folding gives the value in 1..65535 congruent to the sum modulo 65535, and 0 only for a zero sum |
| Checksum.SwapCommutesWithFold | module3/cross1/server.c:16-28 | byte swap, which is multiplication by 256 modulo 65535, commutes with folding, odd tails included |
| Checksum.StoredBytesAreNetworkOrder | module3/cross1/server.c:16-28 | the stored checksum bytes are those of the network-order definition (section 2(B) of RFC 1071) |
| Checksum.CheckVerifies | module3/cross1/server.c:24-28 | a sum taken with the check in place folds to 0xFFFF |
| Packets.BuildPacket | module3/cross1/server.c:39-63 | filling a buffer that is long enough in place gives the packet with both checks and leaves the rest of the buffer alone, for every payload the 16-bit lengths allow |
| Packets.PacketHeader | module3/cross1/server.c:57-60 | the IP header of a packet says version 4, 5 words, the whole length, 64 hops, UDP, and both addresses in their places |
| Packets.PacketFields | module3/cross1/server.c:45-50 | behind it are both ports, the UDP length and the payload |
| Packets.SumBoth | module3/cross1/server.c:53-54 | the 32-bit sum over pseudo-header and datagram does not overflow |
| Packets.PacketVerifies | module3/cross1/server.c:52-60 | re-summing the IP header, and the pseudo-header with the datagram, taken from the bytes of the packet with checks in place, folds to 0xFFFF |
| Packets.PacketChecksAreNetworkOrder | module3/cross1/server.c:52-60 | both check fields hold the network-order checksum of the packet's own bytes with the check as zero |
| Packets.RequestRoundTrip | module3/cross1/server.c:119-139 | the server parses a packet of send_payload back to the same type, text, address and port |
| Packets.RequestOfAnyHeader | module3/cross1/server.c:119-139 | behind an IP header of any length a datagram is taken exactly if it is for port 7000 and not empty, with its type, text and sender |
| Packets.CutRequestIsIgnored | module3/cross1/server.c:120-131 | nothing is taken of a datagram that is cut short |
| Packets.ReplyOfAnyHeader | module3/cross1/client.c:138-149 | a client takes a datagram exactly if it is for its port and from its server |
| Packets.NetWordIsBigEndian | module3/cross1/server.c:127-129 | ntohs reads the high byte first |
| Packets.ReplyRoundTrip | module3/cross1/client.c:131-153 | a reply is taken by exactly the client it is for, which prints the payload |
| Packets.SendPayload | module3/cross1/client.c:80-91 | what is sent goes to the server's address and is parsed there as the message given |
| Sessions.Server.FindClient | module3/cross1/server.c:75-82 | finds the entry of a peer exactly if the map has the peer |
| Sessions.Server.RemoveClient | module3/cross1/server.c:84-88 | swap-remove takes exactly that peer out of the map |
| Sessions.SwapRemoveHolds | module3/cross1/server.c:84-88 | moving the last entry into the hole keeps the array a faithful copy of the smaller map |
| Sessions.Server.CountMessage | module3/cross1/server.c:158-167 | finds or enters the peer and counts its message, or refuses a new peer when 64 are there |
| Sessions.Server.Handle | module3/cross1/server.c:119-178 | the table changes as a map would, and the packet sent carries text and counter to the sender of an answered message, nothing otherwise; a reply too long for the buffer is told apart |
| Sessions.Server.Serve | module3/cross1/server.c:117-178 | the receive loop over any packets: table and packets sent are those of the history |
| Sessions.ReplyFitsIff | module3/cross1/server.c:169-175 | the exact condition on text and counter for the reply to fit the packet buffer |
| Sessions.LongestMessageDoesNotFit | module3/cross1/server.c:117-175 | the longest message the receive buffer holds has a reply that does not fit |
| Sessions.ClientsAreServed | module3/cross1/client.c:122-127 | over every history, a packet of this repository's clients has a reply that fits |
| Sessions.TableCountsMessages | module3/cross1/server.c:144-167 | over every run there are at most 64 distinct peers, just those with a message answered since their last close, each with the number of those messages |
| Sessions.ReplyTellsCount | module3/cross1/server.c:167-177 | over every history a packet sent goes to the sender of a message, which prints the text up to its first zero, a space and the numeral of 1 plus the messages answered since its last close |
| Sessions.QuietIff | module3/cross1/server.c:144-163 | over every history nothing is done exactly about what is not an M message, and about a new client's while 64 are open |
| Sessions.OpenClients | module3/cross1/server.c:158-166 | the clients with a message answered since their last close are a set of at most 64 |
| Sessions.CloseStartsAnew | module3/cross1/server.c:144-154 | after a C message the next reply to that client carries 1 |
| Sessions.ReplyCarriesCount | module3/cross1/server.c:158-167 | the counter kept for a client whose message is answered is 1 plus the messages answered since its last close |
| FilePipe.TakeStringOf | module3/practice1/practice1.c:24-36 | read_string gives back a string up to 511 characters and leaves the rest of a longer one |
| FilePipe.ReadString | module3/practice1/practice1.c:24-36 | byte-by-byte reads compute that string, or use up a stream that ends inside it |
| FilePipe.ReadExact | module3/practice1/practice1.c:12-22 | under any splitting into reads exactly n bytes are taken, or all there are and the result of the last read is returned |
| FilePipe.RoundOfMore | module3/practice1/practice1.c:43-97 | a round the child can make is the same round whatever bytes follow later |
| FilePipe.RunStream | module3/practice1/practice1.c:43-97 | on the stream of files whose names fit, the child makes every copy and stops behind end_of_transmission |
| FilePipe.CopiesIffNamesFit | module3/practice1/practice1.c:43-142 | the child undoes the parent's byte stream if and only if no name is longer than 511 characters |
| FilePipe.ChildProcess | module3/practice1/practice1.c:43-97 | the command loop computes the run of the child on any stream, up to where it stops or gets stuck |
| FilePipe.EmitChunks | module3/practice1/practice1.c:124-132 | under any splitting of the file into reads, the chunks emitted join to the file |
| FilePipe.ParentProcess | module3/practice1/practice1.c:99-142 | emits the files that can be opened in order, byte for byte, and then the end command |
| FilePipe.AllCopiedRight | module3/practice1/practice1.c:43-142 | what the child makes of the files sent is, path by path, a copy equal to the source, and no other file changes |
| FilePipe.CopyFiles | module3/practice1/practice1.c:43-142 | parent and then child: every file that can be opened has a copy equal to it, no other file changes, nothing is left in the pipe |
| FileCopy.EventKeepsInv | module3/practice1/practice1.c:43-142 | every step of either process keeps: child and pipe are in step with what was written, what was sent is what the files held at the start |
| FileCopy.UnreadIsUntouched | module3/practice1/practice1.c:60-64 | a file being read or still to be read is as it was, because the child opens only copies of earlier files |
| FileCopy.OverIsDone | module3/practice1/practice1.c:50-141 | when neither process can move, the child has stopped with every copy made |
| FileCopy.EventLowersWork | module3/practice1/practice1.c:50-141 | every step of either process lowers a measure, so every run ends |
| FileCopy.LongPathFails | module3/practice1/practice1.c:24-36 | with a path of more than 511 characters there is a run without its copy |
| FileCopy.ChainedFails | module3/practice1/practice1.c:58-64 | with a path that is the copy of an earlier one there is a disk and a run in which a copy is wrong |
| FileCopy.CopiesIffFitAndUnchained | module3/practice1/practice1.c:43-142 | on every disk and under every interleaving every copy is right, if and only if the paths fit and none is the copy of an earlier one |
| Frames.DecodeOfEncode | module3/practice7/client.c:57-79 | repeated recv_frame returns exactly the frames sent, in order, if and only if no payload is over MAX_PAYLOAD |
| Frames.NetLenIsBigEndian | module3/practice7/client.c:73-75 | lengths travel with the high byte first |
| Frames.CutStreamIsSafe | module3/practice7/client.c:57-68 | a stream cut anywhere yields a prefix of the frames sent |
| Frames.ReadN | module3/practice7/client.c:33-43 | under any splitting n bytes are read, or failure is reported if the stream has fewer |
| Frames.WriteN | module3/practice7/client.c:45-55 | under any partial writes all bytes are written once, in order |
| Frames.RecvFrame | module3/practice7/client.c:57-68 | takes the first frame off the stream, or fails on a short stream or a length over the limit |
| Frames.SendFrame | module3/practice7/client.c:70-79 | appends the encoded frame |
| Frames.Broadcast | module3/practice7/server.c:74-81 | every client but the excepted one gets the frame once |
| Frames.Relay | module3/practice7/server.c:148-166 | for any order of the clients' turns, each client gets behind what it had a stream that decodes to exactly the others' frames in the order received, and each client's frames are received in the order sent |
| Frames.LastSlash | module3/practice7/client.c:114-115 | the last slash of the path, or none |
| Frames.BaseNameIsLast | module3/practice7/client.c:114-115 | the base name is what follows the last slash, or the whole path |
| Frames.FileArrives | module3/practice7/client.c:94-124 | the frame of a file that fits is taken off a stream and unpacked to the same data, and to its base name if and only if that has at most 127 characters |
| Frames.ShareFile | module3/practice7/client.c:94-177 | send_file at one client, the server's turn and the unpacking at another give the same data, and the base name or its first 127 characters; a file too big is not sent |
| Frames.Pack | module3/practice7/client.c:117-119 | zeroing, bounded copy and reading into a used buffer give the file payload |
| Frames.SendFile | module3/practice7/client.c:94-124 | sends the file's frame exactly if the file is not too big |
| ContactChain.ContactList.GetByIndex | module2/pract4/pract4_1/phonebook.c:64-71 | answers the entry at that position, NULL outside the list |
| ContactChain.ContactList.PopEntry | module2/pract4/pract4_1/phonebook.c:73-88 | takes the entry out; forward and backward links, head, tail and count are those of the shorter list |
| ContactChain.ContactList.Link | module2/pract4/pract4_1/phonebook.c:109-129 | the four relinking cases put the entry between its neighbours; links, head, tail and count are those of the longer list |
| ContactChain.ContactList.InsertEntry | module2/pract4/pract4_1/phonebook.c:97-130 | the entry goes in front of the first lesser name, in a list of any order |
| ContactChain.OrderedByName | module2/pract4/pract4_1/phonebook.c:103 | in order means that no entry comes before one with a first name greater in dictionary order |
| ContactChain.PlaceIsBehindEquals | module2/pract4/pract4_1/phonebook.c:102-108 | in an ordered list that place is behind every equal name and before every lesser one |
| ContactChain.SplicedIsOrdered | module2/pract4/pract4_1/phonebook.c:102-108 | an entry put at that place keeps names non-increasing |
| ContactChain.ContactList.MoveToRightPlace | module2/pract4/pract4_1/phonebook.c:131-133 | restores the order from a list where only the moved entry's name may be out of order; the others keep their order |
| ContactChain.ContactList.EditFirstName | module2/pract4/pract4_1/phonebook.c:310-345 | changing the first name, and no other, and moving the entry leaves an ordered list of the same entries |
| ContactChain.ContactList.Remove | module2/pract4/pract4_1/phonebook.c:90-95 | removes exactly the entry at the index and keeps the order; an index outside changes nothing |
| PriorityQueue.Queue.InsertEntry | module2/pract4/pract4_2/priorityqueue.c:30-46 | the new entry goes behind all entries of its own or a lesser priority |
| PriorityQueue.Queue.LinkIn | module2/pract4/pract4_2/priorityqueue.c:35-43 | the loop of at most size + 1 rounds always links the entry in |
| PriorityQueue.Queue.PopEntry | module2/pract4/pract4_2/priorityqueue.c:76-103 | unlinks and returns the earliest entry with the priority and, if given, the data, and nothing else; NULL if there is none |
| PriorityQueue.RemovedByField | module2/pract4/pract4_2/priorityqueue.c:49-65 | the entry that goes is the earliest one whose priority and, if given, data are those asked for |
| PriorityQueue.Queue.RemoveEntry | module2/pract4/pract4_2/priorityqueue.c:47-75 | removes that same entry and answers whether there was one |
| PriorityQueue.Queue.GetWithPriority | module2/pract4/pract4_2/priorityqueue.c:107-116 | answers the earliest entry of the priority, if any |
| PriorityQueue.Queue.GetWithPriorityAtLeast | module2/pract4/pract4_2/priorityqueue.c:117-128 | answers the earliest entry of the least priority that suffices, if any |
| PriorityQueue.Queue.Drain | module2/pract4/pract4_2/tests.c:34-39 | popping the head until the queue is empty yields the entries in queue order |
| PriorityQueue.StableSortIsUnique | module2/pract4/pract4_2/priorityqueue.c:30-46 | order by priority together with order of arrival within a priority determines the queue |
| PriorityQueue.InsertKeepsStableSort | module2/pract4/pract4_2/priorityqueue.c:30-46 | insertion keeps the queue the stable sort of what arrived |
| PriorityQueue.RemoveKeepsStableSort | module2/pract4/pract4_2/priorityqueue.c:47-103 | removal of the first match in the queue is removal of the earliest matching arrival |
| PriorityQueue.AlwaysStableSort | module2/pract4/pract4_2/priorityqueue.c:30-103 | over every run the queue is the stable sort of what was inserted and not removed |

## Left out

- Copies of the same code: `module2/pract6/pract6_1` and `pract6_2` repeat the AVL tree, `module3/practice5` repeats the shared blocks with POSIX calls.
- Growable arrays (`stringlist.c`, `module2/pract2`), the broker of `module3`, the kernel modules and drivers of `module5`: they would only add append and remove claims.
- Menus, prompts, terminal input, printed decoration, file and directory calls, signals and sockets. What a program prints is modelled only where a statement is about it.
- Freeing of whole trees and contacts (`contactlist_free`), and fields of a contact the comparator ignores.
- Failures of malloc, fork, open, read and write other than end of stream.
- 32-bit wrap-around of counters the programs only increment: `count`, `size`, the session counter; and of `now + secs` in the taxi driver. The checksum's 32-bit arithmetic is modelled.
- The producer's semaphore set-up, which can run while others wait, and a second producer on the same segment: the model has one producer and starts with its layout loop.
- SharedBlocks.EveryInterleaving: starts from the memory Layout leaves; consumers that run before the producer's first unlock are not modelled.
- Taxi: control and driver lines longer than their buffers; the program writes none.
- Sessions.Server.Handle: says that a reply is too long for the packet buffer, but not what build_packet then does to memory.
- The zero-checksum substitution of RFC 768 (field "Checksum"): build_packet does not perform it, so a computed 0 stays 0, and only one's-complement verification is stated.
- Frames.Relay: the clients connected do not change. Joining, leaving and failed writes are not modelled, nor is the poll loop, which reads poll results after the client table has changed.
- Frames.ReceiveFile: answers nothing for a file frame shorter than its name field; client.c:167-177 does not test for one, and no client here sends one.
- FilePipe.ChildProcess: ends as stuck where the source waits for bytes, goes on with the old buffer because the stream has ended, or reads a chunk into a buffer that does not hold it.
- FileCopy: two spellings of one path, links, and files that exist but cannot be opened. The 64-entry argument array of main.
- The handshake line ready_for_input: the parent only prints a message if it differs.
- Edits of other contact fields in the doubly linked phonebook: they too end in MoveToRightPlace, whose contract covers them.
