# Protocols and data structures of the LWFS test programs

The LWFS repository drives a light-weight file system with test and benchmark programs. Several of these programs are
small protocols or data structures of their own. This project models nine groups of them in Dafny and proves what they keep,
where they end, and exactly when they do not do what they are for. The servers and libraries behind them (metadata
server, naming and storage service, Portals, MPI, the GSS mechanism) are not shown in the repository; each appears
here as a small contract that leaves open everything the programs do not rely on: results, failures, the order of
completion, the order of delivery, the way a stream is cut into pieces, the scheduler.

| files | program | what is modelled |
|---|---|---|
| `Mds.dfy`, `DirTree.dfy`, `StressDir.dfy`, `SwapLast.dfy` | `mds_stress_dir.c` | a directory tree in a flat array with parent indices and child counts; removal copies the last entry over the hole and repairs all parent indices |
| `TokenCodec.dfy` | `gss-misc.c` | the length-prefixed token format over sockets that move any number of bytes per call |
| `GssSession.dfy` | `gss-client.c`, `gss-server.c` | handshake, message exchange and close of the two programs, under every interleaving |
| `TokenRing.dfy`, `RingTest.dfy` | `ringtest.c` | N processes passing one token |
| `SendWindow.dfy`, `PingPong.dfy`, `PingPongTest.dfy` | `put_pp.c`, `put_bw.c`, `get_bw.c`, `getput_pp.c` | the ring of message slots, the sender's window, the ping-pong pair under any delivery order |
| `ObjectStore.dfy`, `AsyncWindow.dfy` | `lwfs-nton-write.c`, `lwfs-nton-create.c` | the bounded window of asynchronous requests |
| `PathNames.dfy`, `PathFuse.dfy`, `PathScan.dfy` | `fuse-callbacks.c`, `lwfsfuse.c` | two path resolvers, one recursive, one scanning |
| `ParallelFile.dfy`, `ParallelRuns.dfy`, `ParallelTest.dfy` | `posix-nto1-write.c` | all processes of a job writing one shared file |
| `ArgvParser.dfy`, `OptionValues.dfy` | `cmdline.c` | a command string split into an argument vector; an option value chosen by abbreviation |

`Common.dfy` holds the types the others share and the contents of a file or object after a series of writes, `Arith.dfy`
the facts about products, quotients and remainders.

For each protocol there is a step function, an invariant every step keeps, lemmas about all runs, a measure that goes
down with every step that does not fail, and a class that makes the same steps in place and runs to the end under an arbitrary scheduler.
For each data structure there is a class or an array algorithm proved equal to a function of its old contents, and
lemmas about that function.

## What the code does that one would not expect

Each of these is proved, as an equivalence wherever the program can be put right by a check before the call.

* A random draw equal to `RAND_MAX` indexes one past the directory list. A create then makes the new entry its own
  parent: it leaves a tree if and only if the draw was smaller (`DoCreate`). A remove then takes the slot just above the
  list for the entry to remove, unless that leftover has children: the removal goes through if and only if the server can
  remove the directory the leftover names, and it keeps the list right if and only if that is the last entry's directory
  under the last entry's parent (`DoRemove`). A slot that was never used is refused (`LeftoverSlotRefused`).
* A token without a flag byte survives the wire if and only if it is shorter than 2^24 bytes, one with a flag byte if and
  only if it is shorter than 2^31 (`RoundTrip`).
* An interrupted `send` or `recv` moves the pointer back one byte, out of the buffer if it was the first: a write that
  reports success has sent its buffer if and only if it was never interrupted (`WrittenIffUninterrupted`), and likewise
  for a read (`ReadIffUninterrupted`).
* In a GSS session there is never a deadlock, but more than one packet can be under way: up to three when the handshake
  has a single token, up to two otherwise, and the bound is reached (`InFlightBounded`, `InFlightBoundReached`).
* The option `-nw` turns wrapping off and leaves encryption on: the message then travels readable under the ENCRYPTED flag.
  It stays secret if and only if both are on (`MessageReadableIff`).
* The programs check the type of every event, so they depend on the order in which the network works. A token ring or a
  ping-pong pair in which nothing can move has a failed process if and only if a PUT_END or ACK entered a queue that was
  still waiting for its SEND_END; this does not happen if every send ends before its message is delivered
  (`TokenRing.NeverDeadlocks`, `PingPong.BlockedOutcome`, `FailsOnlyOvertaken`), and can happen otherwise
  (`OvertakingExample`, `OvertakingPossible`).
* The token ring can finish if and only if the number of trips is positive (`FinishesIffTrips`); a sender's loop blocks
  if and only if there is no trial to make (`SendTrials`).
* The message that warms up a pair of benchmark processes carries the bare source rank as its match bits, which none of
  the posted entries matches unless the rank is 0 (`WarmUpMatchedIff`). So a pair can finish if and only if its source
  rank is 0; for every other rank both sides end up waiting in the warm-up (`FinishesIffSourceZero`, `BlockedOutcome`).
* The asynchronous window overwrites the local result of a wait with the remote one, so it can report success after a
  local failure. A reported success means that everything was carried out and waited for if and only if no wait failed
  locally; a failure is reported exactly as the call that failed reported it, by its remote result if it was a wait
  (`Outcome`, ensured by `WriteAsync` and `CreateObjsAsync`).
* The recursive resolver looks up exactly the components of a path if and only if the path does not start with two
  slashes (`ResolvesSplitIff`). The parent the scanning resolver finds is the right one, whatever the names lead to, if
  and only if the last name does not occur before (`ParentIsNodeOfPrefixIff`); `/a/a` yields the root
  (`StopsShortExample`).
* The shared-file job can be aborted if and only if process 0 cannot open the file, or the file is removed at the end and
  can be, and there are at least two processes (`AbortIff`): removal is not separated from the others' opening by a
  barrier. The failure of the removal at the start is ignored and the file is not truncated: it ends up exactly as
  expected if and only if no longer leftover survives (`FinalFileIff`).
* The arguments parsed are the words of the command string if and only if it does not start with a blank
  (`ArgsAreWordsIff`).

## Model

| member | source | states |
|---|---|---|
| `Mds.Server.Mkdir` | testing/mds-api-tests/mds_create.c:211-219 | the server refuses a create exactly when the parent is unknown or the name is taken there; otherwise the directory grows by one node with a new ID |
| `Mds.Server.Rmdir` | testing/mds-api-tests/mds_create.c:763-771 | the server refuses a removal exactly when the directory is unknown or not empty |
| `DirTree.EveryEntryReachesRoot` | testing/mds-api-tests/mds_stress_dir.c:161-178 | from every entry of a tree the parent indices lead to entry 0, wherever parents sit relative to their children |
| `DirTree.LeafExists` | testing/mds-api-tests/mds_stress_dir.c:296-305 | a tree with at least one directory has a leaf other than the root, and the root is no leaf: the search has something to find and spares the root |
| `DirTree.LeafIffEmpty` | testing/mds-api-tests/mds_stress_dir.c:312-316 | an entry without children in the list is exactly one the server regards as empty |
| `DirTree.CreatedConsistent` | testing/mds-api-tests/mds_stress_dir.c:246-266 | attaching an entry to any listed one keeps the list a tree with correct counts and IDs that represents the server's directory, which grows by that one node |
| `DirTree.RepointedKids` | testing/mds-api-tests/mds_stress_dir.c:327-331 | the fix-up moves all children of the moved entry's old index to its new one and changes no other count |
| `DirTree.MovedKids` | testing/mds-api-tests/mds_stress_dir.c:320-324 | copying the last entry over the hole loses exactly the hole's parent link |
| `DirTree.RemovedKids` | testing/mds-api-tests/mds_stress_dir.c:319-333 | after a whole removal every index has the children it should, also when the moved entry was the parent or had children |
| `DirTree.RemovedEntry` | testing/mds-api-tests/mds_stress_dir.c:319-333 | every entry of the shortened list keeps the identity, name and parent ID of the entry it came from |
| `DirTree.RemovedIsTree` | testing/mds-api-tests/mds_stress_dir.c:323-331 | removing a leaf by swap-with-last keeps the list acyclic and rooted at 0 |
| `DirTree.RemovedLinked` | testing/mds-api-tests/mds_stress_dir.c:327-331 | after the fix-up every stored parent ID is again the ID of the entry the parent index names |
| `DirTree.RemovedRepresents` | testing/mds-api-tests/mds_stress_dir.c:323-333 | the shortened list represents the server's directory without the removed node: the swap is invisible |
| `DirTree.RemovedConsistent` | testing/mds-api-tests/mds_stress_dir.c:312-333 | removing a leaf keeps the whole invariant for the server's directory without it |
| `DirTree.DroppedConsistentIff` | testing/mds-api-tests/mds_stress_dir.c:312-333 | removing a leftover above the list drops the last entry; the invariant is kept exactly when the leftover names the last entry's directory and parent |
| `SwapLast.SwapRemove` | testing/mds-api-tests/mds_stress_dir.c:323-324 | overwriting an element by the last and dropping the last loses exactly that element |
| `StressNames.NamesInjective` | testing/mds-api-tests/mds_stress_dir.c:344-355 | two values of the name counter never give the same name, also beyond eight digits |
| `StressNames.NameForm` | testing/mds-api-tests/mds_stress_dir.c:344-355 | a name is "Name" and the counter in decimal digits, eight of them or as many as it takes |
| `StressDir.PickIndex` | testing/mds-api-tests/mds_stress_dir.c:238 | the scaled index lies in the list exactly when the draw is below RAND_MAX, and is never more than one past it |
| `StressDir.PickIndexScales` | testing/mds-api-tests/mds_stress_dir.c:238 | the index is the draw scaled from RAND_MAX down to the length of the list |
| `StressDir.FreshName` | testing/mds-api-tests/mds_stress_dir.c:246 | the next name is free under every parent, so no create meets an existing name |
| `StressDir.SearchLeaf` | testing/mds-api-tests/mds_stress_dir.c:296-305 | the wrap-around search ends from every start with an entry without children that is not the root, says when it lies in the list, and then every entry passed over on the way, to the end and on from entry 1, has children |
| `StressDir.FoundUnique` | testing/mds-api-tests/mds_stress_dir.c:296-305 | draw and list determine which entry that is |
| `StressDir.Repoint` | testing/mds-api-tests/mds_stress_dir.c:327-331 | the loop over the array repoints exactly the entries that named the old last index |
| `StressDir.Compact` | testing/mds-api-tests/mds_stress_dir.c:319-331 | the three in-place steps together are the abstract removal |
| `StressDir.NoSelfParent` | testing/mds-api-tests/mds_stress_dir.c:249 | in a tree no entry is its own parent, which is what a draw of RAND_MAX would make |
| `StressDir.StressTest.constructor` | testing/mds-api-tests/mds_stress_dir.c:161-178 | the zeroed array with its root is a tree that represents the empty directory |
| `StressDir.StressTest.Attach` | testing/mds-api-tests/mds_stress_dir.c:245-266 | one creation: refused exactly when the server refuses, otherwise the list is the abstract creation |
| `StressDir.StressTest.DoCreate` | testing/mds-api-tests/mds_stress_dir.c:221-269 | a create whose draw is below RAND_MAX always succeeds and adds exactly one child to list and server; one that goes through keeps the invariant exactly when the draw was below RAND_MAX |
| `StressDir.StressTest.Detach` | testing/mds-api-tests/mds_stress_dir.c:311-335 | refused exactly when the server refuses; otherwise the server loses that node and the list is the abstract removal, of a listed entry or of a leftover |
| `StressDir.StressTest.RemoveFrom` | testing/mds-api-tests/mds_stress_dir.c:295-335 | a search that ends in the list removes the first leaf from its start on from list and server, keeps the invariant and is never refused; one that ends above it goes through exactly when the server can remove what the leftover names, and keeps the invariant exactly when that is the last entry's directory under the last entry's parent |
| `StressDir.StressTest.DoRemove` | testing/mds-api-tests/mds_stress_dir.c:278-337 | the search ends in the list exactly when the draw is below RAND_MAX or the leftover slot has children, and then at the first leaf from the drawn entry on; what follows in either case is as for `RemoveFrom`, so the exact condition for keeping the invariant is one on the draw, the leftover and the last entry |
| `StressDir.StressTest.Run` | testing/mds-api-tests/mds_stress_dir.c:184-208 | for every sequence of draws below RAND_MAX the main loop is never refused, every turn does to list and server what its two draws say, list, counter and server agree at the end, and the draws alone give the number of entries, of names used and of turns made |
| `StressDir.StressTest.Operate` | testing/mds-api-tests/mds_stress_dir.c:187-201 | one turn: three draws in four create under the entry drawn, the others remove the first leaf from the entry drawn on, if there is any directory |
| `StressDir.TraceCounts` | testing/mds-api-tests/mds_stress_dir.c:184-201 | along every such run the list has one entry more than the draws say, and the name counter has counted the creates |
| `StressDir.LevelIsSurplus` | testing/mds-api-tests/mds_stress_dir.c:184-201 | the number of directories is the greatest surplus of creates over removals among the latest draws |
| `StressDir.DirectorySize` | testing/mds-api-tests/mds_stress_dir.c:184-208 | the server's directory has exactly as many nodes as the list has entries besides the root |
| `StressDir.LeftoverSlotRefused` | testing/mds-api-tests/mds_stress_dir.c:294-316 | a concrete run in which a draw of RAND_MAX makes the server refuse a removal |
| `TokenCodec.LengthRoundTrip` | testing/gss-api-tests/gss-misc.c:171-174 | four bytes carry any 32-bit length; the top byte is zero exactly below 2^24 |
| `TokenCodec.LengthOrder` | testing/gss-api-tests/gss-misc.c:171-174 | the most significant byte comes first: byte order is numeric order |
| `TokenCodec.LengthBytesOf` | testing/gss-api-tests/gss-misc.c:275-278 | any four bytes are the encoding of the length they are read as |
| `TokenCodec.EncodeLayout` | testing/gss-api-tests/gss-misc.c:160-186 | on the wire: a flag byte unless it is zero, four bytes of length, the data as they are |
| `TokenCodec.RoundTrip` | testing/gss-api-tests/gss-misc.c:153-300 | encoding then decoding gives the token and what followed it, exactly when the token is transportable |
| `TokenCodec.DecodedIff` | testing/gss-api-tests/gss-misc.c:153-300 | decoding is exactly the inverse: bytes decode to a token and a rest if and only if they are the encoding of that token, a transportable one, followed by that rest |
| `TokenCodec.StreamRoundTrip` | testing/gss-api-tests/gss-misc.c:153-300 | a sequence of transportable tokens is recovered from the concatenation of their encodings |
| `TokenCodec.WrittenIff` | testing/gss-api-tests/gss-misc.c:89-98 | a write loop gets through the buffer after exactly those calls that each move some of the bytes left, or are interrupted and add one, and leave none |
| `TokenCodec.FilledIff` | testing/gss-api-tests/gss-misc.c:115-127 | likewise a read loop, if the peer sends as many bytes as the calls move |
| `TokenCodec.WriteRunLength` | testing/gss-api-tests/gss-misc.c:89-98 | a write loop that ends has sent one byte more per interruption, whichever call was interrupted |
| `TokenCodec.WrittenIffUninterrupted` | testing/gss-api-tests/gss-misc.c:89-100 | every write loop that ends reports the whole buffer; it has sent exactly the buffer if and only if no call was interrupted, the first included |
| `TokenCodec.ReadRunLength` | testing/gss-api-tests/gss-misc.c:115-127 | a read loop that ends has taken one byte more off the stream per interruption, and without one has changed only its buffer |
| `TokenCodec.ReadIffUninterrupted` | testing/gss-api-tests/gss-misc.c:115-129 | every read loop that ends reports its buffer filled; it has split the incoming bytes into buffer and rest if and only if no call was interrupted, the first included |
| `TokenStream.WriteAll` | testing/gss-api-tests/gss-misc.c:84-101 | for every way the socket takes the bytes, a prefix of the buffer is sent and its length reported; all of it without a fault |
| `TokenStream.ReadAll` | testing/gss-api-tests/gss-misc.c:103-130 | for every way the socket delivers, the buffer receives the front of the stream and the stream loses it |
| `TokenStream.SendToken` | testing/gss-api-tests/gss-misc.c:153-201 | a successful send has put exactly the encoding on the wire; without faults it succeeds exactly below 2^31 bytes and aborts from 2^32 on |
| `TokenStream.RecvToken` | testing/gss-api-tests/gss-misc.c:226-300 | a successful receive has consumed exactly one encoded token; without faults it succeeds exactly when the bytes at hand decode |
| `TokenStream.SendAll` | testing/gss-api-tests/gss-misc.c:153-201 | sending tokens in a row puts the concatenated encodings on the wire |
| `TokenStream.RecvAll` | testing/gss-api-tests/gss-misc.c:226-300 | receiving as many tokens as were encoded gives them back and empties the stream |
| `TokenStream.Transfer` | testing/gss-api-tests/gss-misc.c:153-300 | for every splitting on both sides a fault-free transfer delivers the same tokens in the same order |
| `GssPrograms.ParsedAllowed` | testing/gss-api-tests/gss-client.c:614-663 | no order of command-line options asks for an authenticated service without authentication; each service is asked for exactly when no option turns it off |
| `GssPrograms.UnauthenticatedRejected` | testing/gss-api-tests/gss-server.c:462-472 | without a context the server turns a message away exactly when it asks for wrapping, encryption or a MIC |
| `GssSession.ClientFollows` | testing/gss-api-tests/gss-client.c:208-271 | the client program sends exactly the client's lines of the conversation and accepts exactly the server's |
| `GssSession.ServerFollows` | testing/gss-api-tests/gss-server.c:170-541 | the server program sends exactly the server's lines and accepts exactly the client's |
| `GssSession.ClientAdvances` | testing/gss-api-tests/gss-client.c:486-550 | the client can move exactly when it is its turn or an answer is waiting, and moves on to the next line |
| `GssSession.ServerAdvances` | testing/gss-api-tests/gss-server.c:442-541 | the same for the server |
| `GssSession.RunFollowsConversation` | testing/gss-api-tests/gss-server.c:170-541 | under every schedule both programs stay on the one conversation and the channels hold exactly the lines between them |
| `GssSession.NeverStuck` | testing/gss-api-tests/gss-server.c:170-246 | nobody ever fails, and neither can move exactly when the session is complete: the message heard mcount times by the server, and as many replies sent and accepted, each a MIC of the message when asked for, an empty NOOP otherwise |
| `GssSession.ParsedClientNeverRejected` | testing/gss-api-tests/gss-client.c:650-657 | a client started with any options, `-na` included, is never turned away |
| `GssSession.ServerHears` | testing/gss-api-tests/gss-server.c:474-516 | a server hears the message itself, unwrapped if need be, and makes the reply it deserves |
| `GssSession.PacketsGuarded` | testing/gss-api-tests/gss-client.c:486-509 | for every schedule a data packet under way carries the message, wrapped, confidential and flagged exactly as the services ask, and nothing else under way can be read |
| `GssSession.LineSent` | testing/gss-api-tests/gss-client.c:208-271 | every line of the client gets under way in some run |
| `GssSession.MessageReadableIff` | testing/gss-api-tests/gss-client.c:486-509 | a message can be read on its way exactly when there is one and wrapping and encryption are not both on |
| `GssSession.ParsedMessageReadableIff` | testing/gss-api-tests/gss-client.c:650-657 | so with a message to send it stays secret exactly when none of `-na`, `-nw`, `-nx` is given |
| `GssSession.InFlightBounded` | testing/gss-api-tests/gss-client.c:486-550 | only one direction is in use at a time, with at most one packet from the server and two or three from the client |
| `GssSession.InFlightBoundReached` | testing/gss-api-tests/gss-client.c:548-550 | the bound is reached in every configuration |
| `GssSession.Connection.Move` | testing/gss-api-tests/gss-client.c:208-271 | a move in place is the step function, counts the lines gone through and keeps the invariant |
| `GssSession.Connection.Complete` | testing/gss-api-tests/gss-server.c:410-556 | whoever is scheduled, the session ends complete after one send and one receive per line |
| `TokenRing.NeighboursInverse` | testing/portals-tests/ringtest.c:133-146 | being the next neighbour and being the previous one are inverse, for every ring size |
| `TokenRing.MatchesNextOnly` | testing/portals-tests/ringtest.c:150-162 | the receive of a rank takes a message exactly when it comes from the rank before and carries that rank |
| `TokenRing.SendsStaircase` | testing/portals-tests/ringtest.c:206-277 | after k sends in turn the first k mod N ranks have sent once more than the others |
| `TokenRing.RankStepInv` | testing/portals-tests/ringtest.c:206-277 | every step of a rank's loop keeps the invariant, or fails on an event that came too early |
| `TokenRing.EndStepInv` | testing/portals-tests/ringtest.c:214-222 | the end of a send, at any time after its put, keeps the invariant |
| `TokenRing.DeliverStepInv` | testing/portals-tests/ringtest.c:214-222 | so does the delivery of a message, before or after the end of its send |
| `TokenRing.OneToken` | testing/portals-tests/ringtest.c:202-277 | in every reachable state in which nobody has failed there is exactly one token, the totals form the staircase that says where it is, and no event queue overflows, in whatever order the network works |
| `TokenRing.TokenMessage` | testing/portals-tests/ringtest.c:206-222 | the token under way goes from the last sender to the rank after it and carries the sender's rank |
| `TokenRing.FailsOnlyOvertaken` | testing/portals-tests/ringtest.c:235-268 | nobody fails unless a PUT_END entered a queue that was waiting for its SEND_END, and none does when every send ends before its delivery |
| `TokenRing.NeverDeadlocks` | testing/portals-tests/ringtest.c:206-277 | when nothing can move: every rank has exited with its counter at zero, rank 0 holds the token and N * count sends were made, exactly if no PUT_END came too early; else somebody has failed |
| `TokenRing.OvertakingExample` | testing/portals-tests/ringtest.c:220-242 | a run in which a PUT_END comes too early and the rank fails |
| `TokenRing.TurnDecreases` | testing/portals-tests/ringtest.c:206-277 | every turn that changes anything lowers the remaining work, unless somebody fails |
| `TokenRing.RemainingNonNegative` | testing/portals-tests/ringtest.c:206-277 | the remaining work never drops below zero, so every run ends |
| `TokenRing.NoTripsOverrun` | testing/portals-tests/ringtest.c:206-276 | with no trip to make rank 0 never leaves its loop |
| `TokenRing.FinishesIffTrips` | testing/portals-tests/ringtest.c:246-276 | some schedule lets every rank exit exactly when the number of trips is positive |
| `RingTest.RingTest.StepLoop` | testing/portals-tests/ringtest.c:206-277 | the loop body in place is the step function |
| `RingTest.RingTest.Move` | testing/portals-tests/ringtest.c:206-277 | a turn of a rank or of the network in place is the step function and keeps the invariant |
| `RingTest.RingTest.RunToEnd` | testing/portals-tests/ringtest.c:206-283 | under an arbitrary scheduler and network the ring runs to its proper end, or to a failure exactly when a PUT_END came too early |
| `Slots.MatchBitsUnpack` | testing/portals-tests/put_pp.c:102-103 | rank and slot are read back from the match bits |
| `Slots.MatchBitsInjective` | testing/portals-tests/put_pp.c:358-359 | with at most 32 slots different pairs have different match bits |
| `Slots.MatchBitsSum` | testing/portals-tests/put_pp.c:358-359 | as a number the bits are 32 times the rank plus the slot, the form the pair is modelled with |
| `Slots.MatchBitsOverflow` | testing/portals-tests/put_pp.c:295-300 | slot 32 would share its bits with another rank's slot, which the limit excludes |
| `Slots.WarmUpMatchedIff` | testing/portals-tests/put_pp.c:379-392 | the bare source rank equals the match bits of a posted entry only for rank 0 and slot 0 |
| `Slots.TrialAtStep` | testing/portals-tests/put_bw.c:429-432 | moving the window on by one trial changes the trial of one slot only |
| `SendWindow.PutKeepsWindow` | testing/portals-tests/put_bw.c:395-428 | a put finds its slot idle and keeps each outstanding trial in its own slot |
| `SendWindow.WaitKeepsWindow` | testing/portals-tests/put_bw.c:434-453 | a wait is on the slot that holds the oldest outstanding trial and frees it |
| `SendWindow.Sender.Put` | testing/portals-tests/put_pp.c:97-132 | a put notes the trial in an idle slot and changes nothing else |
| `SendWindow.Sender.Event` | testing/portals-tests/put_pp.c:134-155 | a wait blocks exactly on an idle slot and otherwise yields the trial noted there |
| `SendWindow.Sender.SendTrials` | testing/portals-tests/put_bw.c:392-454 | the loop blocks exactly without trials; trial i used slot i mod inflight, the waits were for the trials in order, min(trials, j + inflight) puts precede wait j, nothing is outstanding, also with fewer trials than slots |
| `PingPong.SenderPutInv` | testing/portals-tests/put_pp.c:419-425 | a put of the sender keeps the invariant of the pair |
| `PingPong.WaitSendInv` | testing/portals-tests/put_pp.c:426 | the wait for the end of a send keeps it |
| `PingPong.WaitReplyInv` | testing/portals-tests/put_pp.c:427-444 | so does the wait for the reply |
| `PingPong.SenderFails` | testing/portals-tests/put_pp.c:150-154 | a wait of the sender fails only on an event that came too early |
| `PingPong.ReceiveInv` | testing/portals-tests/put_pp.c:462-464 | a reception keeps it |
| `PingPong.ReplyInv` | testing/portals-tests/put_pp.c:469 | so does the put of the reply |
| `PingPong.WaitEndInv` | testing/portals-tests/put_pp.c:470-472 | and the wait for the end of that send |
| `PingPong.NetStepInv` | testing/portals-tests/put_pp.c:350-377 | the network may end any send, deliver any message and return the acknowledgement in any order; each keeps the invariant |
| `PingPong.SlotOfWarmUp` | testing/portals-tests/put_pp.c:379-392 | the warm-up message finds an entry only for source rank 0 |
| `PingPong.BitsNameSlot` | testing/portals-tests/put_pp.c:102-103 | the bits of a put are the source rank above five bits of slot number |
| `PingPong.SlotOfIff` | testing/portals-tests/put_pp.c:358-359 | an entry is found exactly by the bits that name the source rank and its slot |
| `PingPong.AlwaysSorted` | testing/portals-tests/put_pp.c:416-484 | in every run, failed ones included, each message under way carries the source rank and its trial's slot (the warm-up the bare rank), and the receiver takes every trial from its own slot |
| `PingPong.InOrder` | testing/portals-tests/put_pp.c:416-484 | for every order of the network, as long as nobody has failed, the i-th reception is trial i, the i-th completion is the reply to trial i, and no queue overflows |
| `PingPong.FailsOnlyOvertaken` | testing/portals-tests/put_pp.c:150-154 | nobody fails unless a PUT_END or ACK entered a queue that was waiting for its SEND_END, and none does when every send ends before its delivery |
| `PingPong.OvertakingPossible` | testing/portals-tests/put_pp.c:383-393 | for source rank 0 there is a run in which the acknowledgement of the warm-up comes too early and the sender fails |
| `PingPong.BlockedOutcome` | testing/portals-tests/put_pp.c:379-484 | when nothing can move: somebody has failed exactly if something came too early; both loops are over with nothing left exactly if nothing did and the source rank is 0; both sides are still in the warm-up exactly for every other source rank |
| `PingPong.TurnDecreases` | testing/portals-tests/put_pp.c:379-484 | every turn that changes anything lowers the remaining work, unless somebody fails |
| `PingPong.ExtendToFinish` | testing/portals-tests/put_pp.c:379-484 | for source rank 0 every run in which sends end before their deliveries can be continued to the proper end |
| `PingPong.FinishesIffSourceZero` | testing/portals-tests/put_pp.c:379-484 | a pair can finish at all exactly when its source rank is 0 |
| `PingPongTest.PingPongTest.SenderLoop` | testing/portals-tests/put_pp.c:383-445 | the sender in place, warm-up, puts and waits, is the step function |
| `PingPongTest.PingPongTest.ReceiverLoop` | testing/portals-tests/put_pp.c:394-484 | the receiver in place, reception, reply and end of send as steps of their own, is the step function |
| `PingPongTest.PingPongTest.Network` | testing/portals-tests/put_pp.c:350-393 | what the network does to queues in place is the step function |
| `PingPongTest.PingPongTest.RunToEnd` | testing/portals-tests/put_pp.c:379-484 | under an arbitrary scheduler and network the pair comes to the end that the source rank and the order of the network determine |
| `ObjectStore.Service.WaitAny` | testing/checkpoint-tests/lwfs-nton-write.c:252-257 | the storage service completes any one of the requests handed to it, having carried out any others, or fails and changes nothing |
| `AsyncWindow.ExtentsTile` | testing/checkpoint-tests/lwfs-nton-write.c:237-245 | the extents i * bufsize are pairwise disjoint and tile the first num_ops * bufsize bytes |
| `AsyncWindow.AnyOrder` | testing/checkpoint-tests/lwfs-nton-write.c:215-291 | a byte of the object depends only on whether its operation was carried out, not on the order or on repetitions |
| `AsyncWindow.AllWritten` | testing/checkpoint-tests/lwfs-nton-write.c:192-291 | once all operations have been carried out, in any order, the object is the buffer repeated end to end, everything else untouched |
| `AsyncWindow.AsyncRefinesSync` | testing/checkpoint-tests/lwfs-nton-write.c:192-291 | so the object equals the synchronous one for every order |
| `AsyncWindow.WriteSync` | testing/checkpoint-tests/lwfs-nton-write.c:192-212 | the writes made are those of the specification up to the first that fails, whose result is returned; all of them on success |
| `AsyncWindow.TracksReplaced` | testing/checkpoint-tests/lwfs-nton-write.c:249-267 | replacing a completed request in its slot loses and duplicates none |
| `AsyncWindow.TracksDrained` | testing/checkpoint-tests/lwfs-nton-write.c:270-286 | filling the hole with the last slot loses and duplicates none |
| `AsyncWindow.SubmitInto` | testing/checkpoint-tests/lwfs-nton-write.c:259-266 | a submission into a free or just completed slot keeps every outstanding request in the window exactly once |
| `AsyncWindow.WaitOne` | testing/checkpoint-tests/lwfs-nton-write.c:252-257 | a wait takes one request out of the window; unless both its results are fine it is the call that ends the run, with the remote one |
| `AsyncWindow.Drain` | testing/checkpoint-tests/lwfs-nton-write.c:270-286 | a drain succeeds if every wait did, and otherwise reports the remote result of the wait that did not; success means that everything was waited for, unless a wait failed locally |
| `AsyncWindow.FillWrites` | testing/checkpoint-tests/lwfs-nton-write.c:237-245 | the first phase submits operations 0 to pending - 1 in order |
| `AsyncWindow.ReplaceWrites` | testing/checkpoint-tests/lwfs-nton-write.c:249-267 | the second phase submits the rest in order, one for each completion |
| `AsyncWindow.WriteAsync` | testing/checkpoint-tests/lwfs-nton-write.c:215-291 | the operations submitted are a prefix of the synchronous ones, at most min(in_transit, num_ops) outstanding; success is reported if every call was fine, otherwise the result of the first that was not; a reported success is complete, the window filled, exactly when no wait failed locally |
| `AsyncWindow.WriteAsyncObject` | testing/checkpoint-tests/lwfs-nton-write.c:215-291 | after such a success the object equals the synchronous test's |
| `AsyncWindow.CreateObjsSync` | testing/checkpoint-tests/lwfs-nton-create.c:139-166 | the objects created are those before the first call that failed, whose result is returned; all of them on success, element i being the object of creation i |
| `AsyncWindow.CreateObjsAsync` | testing/checkpoint-tests/lwfs-nton-create.c:169-261 | the same window and the same outcome, a failed initialisation reported as such; after a complete success the service has filled element i by request i, and the array is the synchronous test's |
| `AsyncWindow.CreateInto` | testing/checkpoint-tests/lwfs-nton-create.c:221-235 | an element is initialised before its creation is submitted, and no element already filled is touched |
| `PathNames.PiecesAtLastSlash` | testing/fuse-lwfs/fuse-callbacks.c:114-150 | cutting a path at its last slash cuts off exactly its last component |
| `PathFuse.PrefixShorter` | testing/fuse-lwfs/fuse-callbacks.c:125-150 | the prefix of an absolute path is shorter and still absolute |
| `PathFuse.ResolvedIsSplit` | testing/fuse-lwfs/fuse-callbacks.c:161-227 | the names looked up are the split components, less the empty first one after a double slash |
| `PathFuse.ResolvesSplitIff` | testing/fuse-lwfs/fuse-callbacks.c:161-227 | they are all the components exactly when the path does not start with two slashes |
| `PathFuse.GetSuffix` | testing/fuse-lwfs/fuse-callbacks.c:114-123 | the name buffer holds the last component |
| `PathFuse.GetPrefix` | testing/fuse-lwfs/fuse-callbacks.c:125-150 | a buffer of strlen(path) bytes holds the prefix, also when "" is rewritten to "/" |
| `PathFuse.TraversePath` | testing/fuse-lwfs/fuse-callbacks.c:161-227 | the recursion ends on every absolute path and is the fold of lookups from the root over the resolved names |
| `PathScan.ScanStep` | testing/fuse-lwfs/lwfsfuse.c:982-991 | one turn of the scan yields the next piece of the path, an empty one as "/" |
| `PathScan.Path2NodeID` | testing/fuse-lwfs/lwfsfuse.c:948-1028 | the scan is the fold of lookups from the root over the scanned names |
| `PathScan.StopsShortExample` | testing/fuse-lwfs/lwfsfuse.c:1105-1108 | on "/a/a" it stops one component early |
| `PathScan.BaseName` | testing/fuse-lwfs/lwfsfuse.c:1070-1079 | the backward search yields what follows the last slash |
| `PathScan.TraversePath` | testing/fuse-lwfs/lwfsfuse.c:1042-1145 | the scan never passes the last component; its result is the fold over the names before the first that equals the last |
| `PathScan.ResolversAgree` | testing/fuse-lwfs/lwfsfuse.c:977-1021 | without empty components, and if "/" names the root in the root, both drivers resolve every path to the fold of lookups over its components |
| `PathScan.ParentIsNodeOfPrefixIff` | testing/fuse-lwfs/lwfsfuse.c:1032-1138 | on such a path the parent found is the node of the path without its last component, for every name space with "/" naming the root in the root, exactly when the last name does not occur before |
| `PathScan.WrongParent` | testing/fuse-lwfs/lwfsfuse.c:1105-1108 | a name space in which it is another node otherwise |
| `ParallelFile.FillBuffer` | testing/checkpoint-tests/posix-nto1-write.c:199-201 | the buffer of a rank holds its fill pattern |
| `ParallelFile.BufferCounts` | testing/checkpoint-tests/posix-nto1-write.c:199-201 | within a buffer the bytes count up by one, wrapping around at 256 |
| `ParallelFile.BuffersContinue` | testing/checkpoint-tests/posix-nto1-write.c:199-201 | the first starts at 0, and each goes on where the one of the rank before ended |
| `ParallelFile.CoversIffNumber` | testing/checkpoint-tests/posix-nto1-write.c:235-243 | a write covers exactly the bytes that belong to its rank and operation |
| `ParallelFile.ByteOfLog` | testing/checkpoint-tests/posix-nto1-write.c:241-248 | whatever the order of the writes, a byte is there when its write is, with that write's value |
| `ParallelFile.ExpectedAt` | testing/checkpoint-tests/posix-nto1-write.c:235-248 | the rank-ordered concatenation of the repeated buffers, byte by byte |
| `ParallelFile.OneOpFile` | testing/checkpoint-tests/posix-nto1-write.c:199-248 | with one operation each, byte k of the file is k modulo 256 |
| `ParallelRuns.WriteInv` | testing/checkpoint-tests/posix-nto1-write.c:241-248 | a write keeps the invariant: exactly the writes made so far, each once, at its place |
| `ParallelRuns.OtherStepInv` | testing/checkpoint-tests/posix-nto1-write.c:204-239 | every other step keeps it, barriers, creation and removal included |
| `ParallelRuns.CreatedBeforeOpened` | testing/checkpoint-tests/posix-nto1-write.c:211-231 | nobody gets to opening the file before process 0 has created it |
| `ParallelRuns.WritesDisjoint` | testing/checkpoint-tests/posix-nto1-write.c:235-248 | no byte is written twice |
| `ParallelRuns.FinalFile` | testing/checkpoint-tests/posix-nto1-write.c:204-248 | for every interleaving that ends with all processes done, the file holds the rank-ordered concatenation of num_ops copies of each buffer, and beyond it what a leftover that could not be removed held there |
| `ParallelRuns.FinalFileIff` | testing/checkpoint-tests/posix-nto1-write.c:204-248 | it is exactly that concatenation if and only if no leftover was kept that is longer |
| `ParallelRuns.FinalName` | testing/checkpoint-tests/posix-nto1-write.c:262-264 | it is there under its name unless it was to be removed and could be |
| `ParallelRuns.NeverStuck` | testing/checkpoint-tests/posix-nto1-write.c:211-231 | nobody can move exactly when the job was aborted or everybody is done |
| `ParallelRuns.RemovalRaceAborts` | testing/checkpoint-tests/posix-nto1-write.c:262-264 | a run in which removal by the first process makes the second one's open fail |
| `ParallelRuns.AbortIff` | testing/checkpoint-tests/posix-nto1-write.c:205-231 | a job can be aborted exactly when process 0 cannot open the file (a leftover is unwritable, or there is none any more and none may be created), or the file is removed, can be, and there are at least two processes |
| `ParallelRuns.UnopenableNeverDone` | testing/checkpoint-tests/posix-nto1-write.c:216-220 | in the first case no run gets through |
| `ParallelRuns.StepDecreases` | testing/checkpoint-tests/posix-nto1-write.c:199-269 | every step that does not abort the job lowers what is left to do |
| `ParallelTest.Cluster.Execute` | testing/checkpoint-tests/posix-nto1-write.c:204-264 | the next statement of a process in place is the step function |
| `ParallelTest.Cluster.RunToEnd` | testing/checkpoint-tests/posix-nto1-write.c:176-269 | under an arbitrary scheduler the job ends: aborted if process 0 cannot open the file, all done if it can and no removal is raced, one or the other if one is |
| `ArgvWords.ArgsAreWordsIff` | testing/checkpoint-tests/cmdline.c:1047-1072 | the arguments are the maximal blank-free words exactly when the string does not start with a blank |
| `ArgvWords.JoinedParse` | testing/checkpoint-tests/cmdline.c:1047-1072 | words joined by any runs of blanks are parsed back |
| `ArgvWords.ParsedJoin` | testing/checkpoint-tests/cmdline.c:1047-1072 | a string that does not start with a blank is such a joining of its arguments: only blanks are dropped |
| `ArgvParser.NextArg` | testing/checkpoint-tests/cmdline.c:1049-1071 | one turn of the loop over the string cut in place: the first argument and what is left |
| `ArgvParser.Parser.PushArgs` | testing/checkpoint-tests/cmdline.c:1044-1072 | the arguments are pushed onto the list and counted |
| `ArgvParser.Parser.FillArgv` | testing/checkpoint-tests/cmdline.c:1074-1082 | filling the array backwards from the reversed list restores the order |
| `ArgvParser.Parser.CreateArgv` | testing/checkpoint-tests/cmdline.c:1028-1086 | the vector is the program name, if given, then the arguments in their order, then a null |
| `OptionValues.CheckPossibleValues` | testing/checkpoint-tests/cmdline.c:472-497 | the first value given exactly, else the only one abbreviated, else -1 for none and -2 for several |
| `OptionValues.ChosenUnique` | testing/checkpoint-tests/cmdline.c:472-497 | the answer is unique, is abbreviated by the argument, and is -1 exactly when nothing is |
| `OptionValues.FileModes` | testing/checkpoint-tests/cmdline.c:87 | for the result file modes every non-empty abbreviation is accepted and the empty one is ambiguous |

## Left out

What the programs do and the model does not:

- The servers and libraries themselves: metadata, naming and storage servers, Portals, MPI, the GSS mechanism; only the
  contracts described above. Of the mechanism it is assumed what gss-client.c:203-206 states (sections 5.1 and 5.19 of
  RFC 2744): a token is produced exactly when the other side waits for one.
- Time-outs, logging, printed results, timing statistics and memory exhaustion in all programs.
- PickIndex: scales over exact arithmetic; a rounding of the `double` product is not modelled.
- NamesInjective: the name counter, an unsigned long, does not wrap around.
- DoCreate: requires a free slot, which the main loop always leaves; the guard at mds_stress_dir.c:228, which lets a create
  on a full list through, is not modelled. Nor is the clean-up option, which does nothing in the code.
- WriteAll: an interrupted call is a fault there; what it does is the subject of `RunWrite`, over a memory in which the
  pointer may leave the buffer.
- ReadAll: likewise, see `RunRead`; a `select` time-out is a fault.
- WrittenIffUninterrupted: the byte count, an `unsigned int`, does not wrap around, which would take 2^32 interruptions
  less the size of the buffer; the same holds for ReadIffUninterrupted.
- Transfer: the receiver starts when the sender has finished, since what it receives depends only on the bytes sent and
  a time-out is a fault.
- NeverStuck: sessions in the old token format (`-v1`) are not covered; the server does not serve them, since it demands an
  opening NOOP. The zero-flag form of the token is in the codec. Wrapping, integrity codes and context tokens are terms
  that only their owner's operation takes apart, and a message is confidential when that is asked for; delegation, sequencing, exported contexts and the several sessions of one
  client (`-ccount`) are left out.
- OneToken: a process posts its receive before anybody sends, and events are not lost. A negative number of trips would
  come back to zero in C after 2^32 decrements; the counter is unbounded here.
- SendTrials: the number of trials and slots together do not exceed 2^32, the range of the loop's counter.
- InOrder: a single message size; a run over several repeats the exchange without the warm-up. Both sides post their
  entries before the first put. The receivers of `put_bw.c`, `get_bw.c` and `getput_pp.c` are left out: they only count
  the completions of the slots in order, and in `put_bw.c` the sender may run ahead of the receiver's event queue. So are
  offset resets racing with arriving data (put_bw.c:458-466).
- CreateObjsSync: passes no transaction where the asynchronous creation passes its own; transactions are not modelled.
- TraversePath: paths whose names do not fit their buffers (`LWFS_NAME_LEN`, 64 in src/common/types/xdr_types.h:104), a null
  path, and the callbacks of both drivers around the resolvers. A lookup that fails for another reason than a missing
  entry reads as missing.
- FinalFile: short writes, failures of `fsync` and `close`, and offsets that overflow abort a job in the program and do
  not occur here. All processes see one file system with the same permissions.
- AbortIff: an open fails only for want of permission or of the file; a mask that denies the other processes a file just
  created, exhausted descriptors or space, and files that others put under the name meanwhile are left out.
- The rest of the generated command-line parser.
