# BLDMS in Dafny

BLDMS is a Linux driver that stores user messages on a device of 4096-byte blocks. Three views of
the messages must agree: the device blocks, an in-memory array of block metadata, and a list of
valid blocks ordered by timestamp. Writers (`put_data`, `invalidate_data`, mount) change all three
under a spinlock. Readers (`get_data` and the file's `read`) walk the list under RCU without the lock.

The project models that logic in four layers and proves what each of them promises.

**Sequential store** (`Layout`, `SortedList`, `StoreSpec`, `Effects`). The packed metadata record, the in-order
insertion, the circular search, and the operations put, invalidate and get as functions on a store.
`Inv` is the coupling of the three views; the lemmas are about every run of operations. `Effects` says
what each call answers and changes in every case, by entries, list positions and bytes alone.

**The code in its own form** (`LinkedList`, `Driver`, `FileOps`). The pointer-linked list, the driver's
global state and an open file as classes, with the loops of the source. Each method is proved equal to
the function of the sequential layer that specifies it.

**Concurrent machine** (`Protocol`, `ListSteps`, `Invariant`, `Runs`, `Linearizability`, `Walks`,
`Answers`, `Provenance`, `Reuse`, `Records`, `Liveness`). Any number of puts, invalidations and read sections, interleaved at the granularity of one
pointer access, one array update, or one piece of a memory copy. List nodes are records in a heap with
`next` pointers. Unlinking leaves the removed node's own pointer as it was, freed addresses can be
handed out again, and `synchronize_rcu` waits for exactly the sections active when it is called.
`Ready` says which steps the code can take, and `Safe` that a step touches only allocated memory and
valid indices. `Safe` is never assumed of a reachable state: it is proved for every ready step. Three
fields of a read section are history: `ever` and `always` (the nodes listed at some instant, at every
instant of the section) and `present`; `HistoryIsTheWindow` proves that they are what they say. `model`
is the sequential store as the last critical section left it, and `stale` marks nodes whose block a put
has selected since. `Records` runs the same machine together with the heap of metadata records that the
array points to.

**Sessions and images** (`Session`, `ReadEffects`, `Interleaved`, `Image`). The `read` state machine as a whole
session, on a fixed store and on a store that changes between calls; the formatter's image, and the
mount that rebuilds array and list from it. Timestamps are taken to be positive there, as the clock
gives them. `Witnesses` holds runs from a freshly formatted device that
show where a promise fails.

`dafny verify dfyconfig.toml` checks everything.

## What the proofs found

* **Freeing before the grace period.** The comment at `syscalls.c:277-283` says that the device stays
  consistent with the list for the whole read section. The array entry is free again at
  `syscalls.c:355`, before the grace period at `syscalls.c:364`, so a put can overwrite a block that a
  reader has found (`ReuseCanReplaceTheMessage`). It is not even enough that no put selects the block
  between the match and the copy: a reader on an unlinked node can follow that node's old pointer to a
  node whose block was reused before the match (`AdjacentCopyCanReplaceTheMessage`). What is enough is
  that no put has selected the block since some instant of the section at which the node was listed
  (`SectionCopiesStoredMessage`); in particular the copy is exact if the node is still listed when the
  copy ends. Byte by byte, and without any condition, what is copied is what the last put that wrote at
  its place between such an instant and the copy has written there, and the found message's byte if
  none did (`EveryByteHasAnOrigin`). The converse of the block-wise condition cannot hold for the bytes
  themselves, since a new message may have the same bytes.
* **The bound check of `read`** (`file_ops.c:65`) adds two blocks to a size that already leaves them
  out, so that a call is let through only if it starts more than two blocks before the end of the file.
  For every file size and store, a session with large buffers delivers every message exactly if each
  non-empty message, and each one listed before it except the first, starts within this bound
  (`DeliversEveryMessageIff`); `HiddenByTheBound` is a run with a message that is never delivered. With
  arbitrary buffers, all series of calls deliver everything exactly if the bound lets through a call at
  each byte of each message, and one at each empty message, up to the last non-empty one; the first
  call is made at offset 0, and passes an empty first message (`EverySeriesDeliversAllIff`). That every
  byte of every message is within the bound is not enough: in `CutOffByAnEmptyMessage` the session gets
  stuck at an empty message beyond it. On files of whole blocks the bound hides the last two blocks
  (`BoundInBlocks`).
* **An empty message** makes `read` return 0 before the end, which the readers in `user/` take for the end
  (`user/user.c:147`). With large buffers such a reader gets all messages of a file of more than two
  blocks exactly if each message that is followed by a non-empty one is not empty itself and its
  successor starts within the bound (`LoopDeliversAllIff`).
* **The end-of-file clamp** (`file_ops.c:68`) can raise the request above what the caller asked for.
  Later clamps undo this for all requests exactly if the file size is at most two blocks, a multiple of
  4096, or one less than a multiple (`StaysWithinRequestsIff`). A session stands at offset 0, at least 10
  bytes into a block, or beyond the bound (`ReadLeavesStandable`); for those offsets, without `pread`,
  sizes of at least three blocks with a remainder of up to 10 are harmless too, and no others
  (`SessionsStayWithinRequestsIff`).
* **The branch at `file_ops.c:127-129`** leaves `ret` unset. `UnsetIff` gives the exact condition, and
  `ReturnsUnset` a run that gets there: five bytes of a message are read, and then its block is taken by
  a shorter message. Such a call passes over the message it found and moves on to the successor, if any
  (`AfterUnset`). It does not arise on a fixed store (`SeriesConserves`).
* **Timestamps may disagree with commit order**, since the clock is read before the lock is taken. The
  list is sorted nevertheless, but a session may deliver out of order: `DeliveredOutOfOrder` is a run
  that delivers timestamp 5 and then 3. On stores with distinct positive timestamps and messages within
  the bound, a session with large buffers delivers in order if and only if, at each call, the block it
  stands at holds nothing as old as what it delivered last (`InOrderIff`). That reused blocks
  always get newer timestamps guarantees this (`DeliveredInOrder`).
* **Equal timestamps** can change places in a remount, because insertion puts a tie before its equals.
  `RemountRestores` gives the exact condition under which the order is kept, and `RemountReorders` a
  run that does not meet it.
* **The mount does not check lengths.** A record has 15 bits for the length of a message, and a block
  has room for 4086 bytes. The three views agree after a mount, with every listed message inside its
  block, if and only if each valid block declares at most 4086 bytes (`MountInvIff`). On any other
  device a listed message ends beyond its block (`MalformedIsListed`), and `get_data` and `read` would
  copy past the block's buffer; this is what the `Inv` required by their models excludes, and all it
  excludes of a mounted device.

## Model

| member | source | states |
|---|---|---|
| `Layout.DecodeEncode` | include/device.h:9-16 | A metadata record decodes to what was encoded, for every timestamp, bit and length, whatever bytes follow it |
| `Layout.EncodeDecode` | include/device.h:9-16 | Every ten-byte prefix is the encoding of what it decodes to, so a record copied out and back is unchanged |
| `Layout.InvalidateOneBit` | syscalls.c:355-358 | Clearing the valid bit of a record changes the lowest bit of its ninth byte and nothing else |
| `Layout.MetadataBytes` | include/device.h:9-16 | A record is eight bytes of timestamp in two's complement, lowest byte first, then one bit of validity and fifteen bits of length |
| `Layout.WrittenBlock` | syscalls.c:80-129 | The buffer a put prepares is that record, then the message, then zeros to the end of the block |
| `Layout.Rewritten` | syscalls.c:357-358 | Rewriting a block's metadata replaces its first ten bytes by the encoded record and keeps all the others |
| `SortedList.InsertPos` | rcu.c:87-96 | The scan from the tail stops right after the last element with a strictly smaller timestamp |
| `SortedList.InsertPosUnique` | rcu.c:87-96 | That place is unique, so a tie always puts the new element before its equals |
| `SortedList.InsertSorted` | rcu.c:75-98 | In-order insertion keeps the list sorted, whatever the new timestamp |
| `SortedList.InsertMembers` | rcu.c:75-98 | Insertion adds the new element and keeps exactly the old ones |
| `SortedList.IndexOf` | syscalls.c:249-258 | The list walk finds the first element of the block, or none exactly if there is none |
| `StoreSpec.SearchCorrect` | syscalls.c:138-156 | The circular search finds block b if and only if b is the first free block after the last written one, and fails exactly if all blocks are taken |
| `StoreSpec.PutKeepsInv` | syscalls.c:137-182 | A put into a free block keeps array, list and device in agreement |
| `StoreSpec.InvalidateKeepsInv` | syscalls.c:324-361 | An invalidation keeps array, list and device in agreement |
| `StoreSpec.RunKeepsInv` | syscalls.c:137-361 | So does every run of puts and invalidations, failing ones included |
| `StoreSpec.GetByArray` | syscalls.c:226-285 | Looking a block up in the list gives what the metadata array and the device say: the first min(size, length) bytes, or ENODATA if the block is invalid |
| `StoreSpec.Untouched` | syscalls.c:137-361 | A call leaves the array entry and the whole device block of every block it neither selects nor invalidates |
| `StoreSpec.StoredMessageSurvives` | syscalls.c:139-181 | A stored message is returned unchanged after any run that does not invalidate its block: no put ever selects a block in use |
| `StoreSpec.PutThenGet` | syscalls.c:137-285 | A message just put is returned by get after any run of other puts and of invalidations of other blocks |
| `StoreSpec.InvalidatedStaysAbsent` | syscalls.c:249-274 | A free block answers ENODATA to get and to invalidate until a put selects it |
| `StoreSpec.InvalidateThenGet` | syscalls.c:300-372 | After a successful invalidation get answers ENODATA through every run in which no put selects the block |
| `StoreSpec.InvalidateSucceedsIffValid` | syscalls.c:313-372 | An invalidation succeeds if and only if the index is in range and the block holds a message |
| `StoreSpec.InvalidateTouchesOneBit` | syscalls.c:355-358 | On the device an invalidation changes one bit of one block; timestamp, length, payload and all other blocks stay |
| `StoreSpec.OneSuccessPerListing` | syscalls.c:324-372 | Over every run, the block's presence before plus the puts that take it equals its presence after plus its successful invalidations |
| `StoreSpec.FreeBlockIsReused` | syscalls.c:138-156 | While a block stays free and unselected, fewer puts succeed than there are blocks; the circular distance to it decreases with each |
| `StoreSpec.FillsInOrder` | syscalls.c:138-181 | Without invalidations, puts take the blocks in index order and are refused with ENOMEM once all are taken |
| `Effects.PutAnswers` | syscalls.c:69-192 | put answers E2BIG exactly for more than 4086 bytes, ENOMEM exactly if they fit and all blocks are taken, and otherwise the first free block met after the last written one, round the device |
| `Effects.FailedPutChangesNothing` | syscalls.c:195-204 | A put that fails leaves array, device, list and last written block as they were |
| `Effects.PutChanges` | syscalls.c:171-181 | A put that succeeds writes the block and the entry it reports, inserts one element right after the last smaller timestamp, sets the last written block, and changes nothing else |
| `Effects.InvalidateAnswers` | syscalls.c:313-342 | invalidate answers E2BIG exactly for an index out of range, ENODATA exactly for a free block, and success otherwise |
| `Effects.FailedInvalidateChangesNothing` | syscalls.c:313-342 | An invalidation that fails changes nothing |
| `Effects.InvalidateChanges` | syscalls.c:354-358 | An invalidation that succeeds clears the validity in the entry and in one bit of the block, removes one element, and changes nothing else, the last written block included |
| `Effects.GetAnswersExactly` | syscalls.c:226-285 | get answers E2BIG exactly for an index out of range, ENODATA exactly for a free block, and otherwise the first min(size, length) bytes after the record |
| `LinkedList.ValidList.InsertInOrder` | rcu.c:75-98 | On the pointer-linked list, insertion in order keeps next and prev of the whole ring consistent, keeps all nodes in order, and inserts exactly where the sequence-level insertion does |
| `LinkedList.ValidList.LinkAfter` | rcu.c:91 | Linking a node after another one inserts it into the sequence of nodes at that place and disturbs no element |
| `LinkedList.ValidList.Find` | syscalls.c:325-338 | The walk returns the first node of the block, or the head if no node has it |
| `LinkedList.ValidList.Unlink` | rcu.c:113 | Unlinking removes exactly that node, keeps the ring well formed, and leaves the removed node's own next pointer and fields as they were |
| `LinkedList.ValidList.Remove` | rcu.c:105-126 | Removing a block unlinks its first node if there is one and changes nothing otherwise; afterwards the block is not listed, if it was listed once |
| `Driver.Bldms.FindFree` | syscalls.c:138-156 | The scan over the metadata array computes the circular search |
| `Driver.Bldms.StoreAt` | syscalls.c:158-182 | Writing the block, publishing the node and updating array and last block amounts to the sequential put into that block |
| `Driver.Bldms.PutData` | syscalls.c:54-204 | The whole call changes all three views as the sequential put does, with its result and errors, keeps them in agreement, and does nothing before a mount |
| `Driver.Bldms.GetData` | syscalls.c:217-286 | The call returns what the sequential get returns, including E2BIG for negative and large indices |
| `Driver.Bldms.InvalidateData` | syscalls.c:300-372 | The whole call changes all three views as the sequential invalidation does and keeps them in agreement |
| `Driver.Bldms.Detach` | syscalls.c:354-359 | Unlinking, clearing the array entry and rewriting the device metadata amounts to the sequential invalidation |
| `Driver.Bldms.Mount` | bldms.c:61-226 | Mounting an unmounted device (a mounted one answers EBUSY) checks the image, then sets array, list and last written block from it, or fails with the error of the specification and changes nothing |
| `Driver.ReadBlocks` | bldms.c:183-217 | The mount loop builds the array of decoded records and, block by block, the sorted list of the valid ones |
| `Driver.LastBlock` | bldms.c:221 | The last written block is the newest listed one, or the last block of an empty device |
| `FileOps.Locate` | file_ops.c:94-113 | The list walk of read stops at the node the session specification names, or at the head |
| `FileOps.Open` | file_ops.c:279-300 | Opening a file answers ENODEV exactly if the device is not mounted, and makes a fresh session otherwise |
| `FileOps.OpenFile.Llseek` | file_ops.c:333-368 | Only a rewind to offset 0 of a readable file is accepted, and it makes the session fresh again |
| `FileOps.OpenFile.Clamp` | file_ops.c:65-83 | The three clamps change offset and length as the specification of a prepared request says |
| `FileOps.OpenFile.CopyOut` | file_ops.c:127-157 | The copy delivers the bytes and moves the session as the specification says |
| `FileOps.OpenFile.SetNext` | file_ops.c:159-201 | The session then expects the successor of the node, or stands at the end of the file |
| `FileOps.OpenFile.Read` | file_ops.c:49-202 | The whole call delivers the outcome and leaves the session state of the specification |
| `ListSteps.SpineDistinct` | rcu.c:81-97 | No node is met twice along the pointers |
| `ListSteps.PublishKeepsLinked` | rcu.c:87-97 | The single pointer write that publishes a node keeps the pointers and the order of the list, with ties put before their equals |
| `ListSteps.DetachKeepsLinked` | syscalls.c:354 | The single pointer write that unlinks a node does too, and leaves that node's own pointer |
| `ListSteps.SectionSurvives` | syscalls.c:248-284 | What a section relies on survives any change of the list that keeps its visited nodes and leads from each of them to what is still listed ahead |
| `ListSteps.AdvanceKeepsSection` | syscalls.c:249-255 | One hop along next, from a listed or an unlinked node, leads the section to an allocated node or to the head and skips no node listed throughout |
| `ListSteps.PeekKeepsSection` | file_ops.c:159-163 | Looking up the successor of the node read is safe, goes forward in list order and skips no node listed throughout |
| `Invariant.KeepPutCopy` | syscalls.c:171 | A piece of the block copy keeps the invariant: it touches no listed block |
| `Invariant.KeepPutFill` | rcu.c:75-79 | Filling in the private node and its pointer before publication keeps the invariant |
| `Invariant.KeepPutPublish` | rcu.c:87-97 | Publishing keeps the invariant of the whole machine with all readers on their way |
| `Invariant.KeepPutRecord` | syscalls.c:180-181 | Swapping the array entry and setting the last written block keeps it |
| `Invariant.KeepPutReturn` | syscalls.c:182 | When the put unlocks, the three views are the sequential put of the store it found |
| `Invariant.KeepInvDetach` | syscalls.c:354 | Unlinking keeps it, with readers standing on the removed node |
| `Invariant.KeepInvCopy` | syscalls.c:357-358 | A piece of the metadata rewrite keeps it: payloads stay intact |
| `Invariant.KeepInvRelease` | syscalls.c:361 | When the invalidation unlocks, the three views are the sequential invalidation of the store it found |
| `Invariant.KeepInvSynchronize` | syscalls.c:364 | Waiting for the sections active now is enough: sections entered later cannot reach the node |
| `Invariant.KeepInvFree` | syscalls.c:372 | Freeing the node after the grace period keeps the invariant of every active section |
| `Runs.InitGood` | bldms.c:183-224 | The invariant holds of the machine right after a mount |
| `Runs.StepKeepsGood` | syscalls.c:137-372 | Every step the code can take from a state of the invariant is safe and keeps it |
| `Runs.EveryStepIsSafe` | syscalls.c:248-372 | In every interleaving, whatever step a thread is about to take touches only allocated records and valid indices: no use after free, no double free |
| `Runs.ReadersStandOnLiveNodes` | syscalls.c:248-284 | The node a reader stands on, and the node its pointer leads to, are allocated even if both have been unlinked |
| `Runs.NodesAreConserved` | syscalls.c:324-372 | Every allocated node is listed or in the care of exactly one call, which frees it once |
| `Runs.MutualExclusion` | syscalls.c:137-182 | Two calls are never inside the writers' section at once |
| `Runs.PointersLinkTheList` | rcu.c:81-97 | At every instant, even inside a critical section, the next pointers link exactly the listed nodes from the head and back to it, in list order |
| `Runs.LockFreeAgreement` | syscalls.c:137-361 | Whenever the lock is free, array, list and device agree and are the store the last critical section left |
| `Runs.CallsReportTheStore` | syscalls.c:153-204 | What each call is about to report, ENOMEM and ENODATA included, is what the sequential call reports on the store it found |
| `Runs.RunTakesSteps` | syscalls.c:137-372 | Every run takes a sequence of steps, on which the next two rows rest |
| `Runs.RunRefinesStore` | syscalls.c:137-361 | The operations that the critical sections of a run commit, in commit order, each succeed on the sequential store, and whenever the lock is free array, list and device are what they lead to from the initial ones |
| `Runs.ConcurrentSuccessesMatchListings` | syscalls.c:324-372 | However calls interleave, whether a block was listed at first, plus the steps of the run that end a put that took it, equals whether it is listed now, plus the steps that end a successful invalidation of it |
| `Liveness.EveryCallMovesOn` | syscalls.c:137-372 | In every run each call can take a step of its own, unless another one is inside the critical section or a read section of its grace period is still active |
| `Liveness.EverySectionMovesOn` | syscalls.c:248-284 | In every run each read section can take a step of its own, whatever the writers do |
| `Liveness.BeginsAsAsked` | syscalls.c:54-192 | A call begins, and a section enters, with the arguments it was given |
| `Liveness.CallsKeepTheirArguments` | syscalls.c:54-192 | It goes on with them as long as it needs them |
| `Liveness.CommitsWhatItBeganWith` | syscalls.c:137-361 | What a call commits at the end of its critical section is the operation it began with |
| `Linearizability.HistoryIsTheWindow` | syscalls.c:248-284 | The history fields of a read section are the union and the intersection of the lists at the instants of the section |
| `Linearizability.FoundWasListed` | syscalls.c:249-254 | Whatever node a lookup found was listed at some instant of the section |
| `Answers.FindsTheFirstWanted` | file_ops.c:94-113 | What a section found is the block that get_data asked for, or for read the block or something newer than the expected timestamp; it was listed during the section, and nothing of that kind that stayed listed throughout comes before it |
| `Answers.MissedNothingWanted` | file_ops.c:117-124 | A section that found nothing missed no node listed throughout: each of those is another block and, for read, not newer than expected |
| `Answers.CopiesTheWantedExcerpt` | file_ops.c:127-157 | With no selection of the block since an instant of listing, a finished section has copied exactly the excerpt it asked for of that message: from its own place in the block that read stood in, from the first byte otherwise |
| `Answers.GetAnswers` | syscalls.c:248-285 | get_data leaves with ENODATA only if the block was absent at some instant of its section, and otherwise with the first bytes of a message that was listed for the block at such an instant, if no put selects the block after it |
| `Linearizability.MissedWasAbsent` | syscalls.c:258-263 | ENODATA means that the block was absent from the list at some instant of the section |
| `Linearizability.ListedThroughoutIsNotMissed` | file_ops.c:94-124 | A search that ends at the head did not miss a matching node that stayed listed for the whole section, whatever was inserted or removed meanwhile |
| `Linearizability.ListedIsOnDevice` | syscalls.c:161-176 | At every instant, even inside a critical section, each listed node's device block holds its message with matching timestamp, length and valid bit |
| `Linearizability.FreshUntilSelected` | syscalls.c:139-171 | A node listed at an instant of a section keeps its fields, and its block holds the message, until a put selects the block |
| `Linearizability.SectionCopiesStoredMessage` | syscalls.c:265-285 | A section that completed its copy got exactly the wanted bytes of the matched message, if no put selected the block since an instant at which the node was listed |
| `Walks.PointersClimb` | syscalls.c:249-255 | From each node a section has seen, listed or unlinked since, next leads to the head or further on in list order |
| `Walks.NeverGoesBack` | syscalls.c:249-255 | Of two nodes a section stands on, the later one is the same or comes later in list order, so a walk meets no node twice whatever is inserted, unlinked or reused |
| `Walks.SuccessorSkipsNothing` | file_ops.c:159-182 | A node listed for the whole section and after the node read is the successor that read looks up, or comes after it |
| `Walks.SuccessorWasListed` | file_ops.c:159-182 | That successor comes after the node read and was listed at some instant of the section |
| `Provenance.DeviceOrigin` | syscalls.c:171 | In every run a payload byte of the device is what the last put to write it since an earlier instant has written, and unchanged if none has |
| `Provenance.EveryByteHasAnOrigin` | syscalls.c:265-285 | Each byte a section has copied is what the last put that wrote at its place between an instant at which the node was listed and the copy has written, and the byte of the found message if none did |
| `Reuse.ReuseCanReplaceTheMessage` | syscalls.c:355-364 | A run in which a reader finds a listed message and delivers a byte of a later one from the reused block |
| `Reuse.AdjacentCopyCanReplaceTheMessage` | syscalls.c:355-364 | A run in which the copy is the very next step after the match and still delivers another message's byte |
| `Records.MoveKeepsRecords` | syscalls.c:111-204 | Every step is safe for the metadata records too, and keeps their roles |
| `Records.RecordsAreSafe` | syscalls.c:158-204 | In every interleaving no metadata record is read, written or freed after it was freed |
| `Records.ArrayPointsToLiveRecords` | syscalls.c:158-192 | At every instant each array entry points to an allocated record of its own that holds the entry's value |
| `Records.NoRecordIsLost` | syscalls.c:180-201 | When no put is under way, the array's records are all that is allocated |
| `Session.Locate` | file_ops.c:94-113 | The walk of read stops at the first element that is the wanted block or newer than expected, and at none only if there is none |
| `Session.Prepare` | file_ops.c:65-83 | The prepared request starts inside the payload of the same block and stays within that block |
| `Session.UnsetIff` | file_ops.c:127-129 | The return value is unset if and only if the wanted block is found by index and the session is past the end of its message |
| `Session.DeliversAPiece` | file_ops.c:94-157 | Any call of any session with any buffer delivers nothing if it finds no element, and otherwise a piece of the message now in the block it finds, from where the session stands in it, unless it stands past the end |
| `ReadEffects.BeyondTheBound` | file_ops.c:65-66 | A call within 8192 bytes of the end of the file delivers nothing and changes nothing |
| `ReadEffects.FindsNothing` | file_ops.c:118-124 | A call that finds no element delivers nothing and leaves the session at the end of the file with its timestamp |
| `ReadEffects.ReadsExactly` | file_ops.c:65-201 | A call that finds an element: exactly which bytes of which block it delivers, or that it is unset, and exactly which offset and timestamp it leaves |
| `ReadEffects.AfterUnset` | file_ops.c:127-129 | A call with an unset result moves the session to the successor or to the end, and the next call delivers the successor from its first byte if it is within the bound |
| `Session.PrepareBounded` | file_ops.c:65-83 | On a file of whole blocks, or one byte short of that, the clamps never leave more than was asked for |
| `Session.NeverMoreThanAsked` | file_ops.c:65-157 | On such a file no call copies more than was asked for |
| `Session.StaysWithinRequestsIff` | file_ops.c:65-157 | The exact file sizes for which no call at any offset on any store copies more than was asked for |
| `Session.ReadLeavesStandable` | file_ops.c:146-199 | Every call leaves the session beyond the bound or in the payload of a block |
| `Session.SessionsStayWithinRequestsIff` | file_ops.c:65-157 | The exact file sizes for which no call at an offset that a session can stand at copies more than was asked for |
| `Session.LocateExpected` | file_ops.c:87-113 | A session standing at a listed message finds that message |
| `Session.GrantedCovers` | file_ops.c:65-83 | A call gets at least as much of the rest of a message as it asked for, and no more if the request ends within the bound or on the file sizes of the next rows |
| `Session.ReadAdvances` | file_ops.c:49-202 | On a fixed store, one call within the bound delivers the next piece of the current message, with a set outcome; what it delivered followed by what remains is what remained before |
| `Session.SeriesConserves` | file_ops.c:49-202 | On a fixed store, any series of calls with any buffer sizes, wherever the bound lies, loses, repeats and reorders nothing and never reaches the branch that leaves the return value unset |
| `Session.SeriesDeliversAll` | file_ops.c:49-202 | If the bound lets every necessary call through, as many non-empty buffers as bytes and messages remain deliver everything that remains, empty messages included, and every further call reports the end |
| `Session.FreshSessionDeliversAll` | file_ops.c:279-300 | A fresh session then delivers the concatenation of all messages in list order, then the end of the file |
| `Session.EverySeriesDeliversAllIff` | file_ops.c:65-66 | For every store and file size, every series with enough non-empty buffers delivers all messages if and only if the bound lets a call through at offset 0 and at each byte of each message, one also at an empty message, up to the last non-empty one, an empty first message excepted |
| `Session.ReachedIsLongestPrefix` | file_ops.c:65-66 | The messages a session reaches are the longest prefix whose elements after the first start within the bound |
| `Session.WholeMessage` | file_ops.c:94-182 | A call with a buffer for any message delivers the expected message whole and moves on to its successor |
| `Session.FreshSessionWholeMessages` | file_ops.c:94-199 | For every file size, with such buffers a fresh session delivers exactly the messages of that prefix, one a call, then nothing |
| `Session.DeliversEveryMessageIff` | file_ops.c:65-66 | For every file size and store, such a session delivers every message if and only if each non-empty message, and each listed before it but the first, starts within the bound |
| `Session.LoopDeliversAllIff` | user/user.c:147 | A reader with large buffers that stops at the first empty result gets all messages if and only if the file is larger than two blocks, unless all messages are empty, and each message followed by a non-empty one is not empty and its successor starts within the bound |
| `Session.BoundInBlocks` | file_ops.c:65 | On a file of whole blocks the bound hides exactly the last two |
| `Interleaved.RunAges` | syscalls.c:137-361 | Runs in which reused blocks get newer timestamps leave in each block the same record, the record invalidated, or a newer one |
| `Interleaved.BatchesMakeHistory` | syscalls.c:137-361 | From a mounted store, batches of such operations between the calls of a session give a history of the kind the session lemmas assume, as long as they leave timestamps distinct and positive and messages within the bound |
| `Interleaved.SameBlockNotOlder` | file_ops.c:96-98 | The message that now occupies an expected block is the expected one or a newer one |
| `Interleaved.SessionProgress` | file_ops.c:159-201 | After each call, with the store changing in between, the session waits for a message or is finished, having delivered everything older that stayed valid |
| `Interleaved.SessionShape` | file_ops.c:159-201 | Whatever happens between its calls, a session is fresh, or stands at the successor of what it delivered last, or at the end |
| `Interleaved.CallDelivers` | file_ops.c:92-157 | Each call then delivers nothing or exactly the whole message of an element valid at that call |
| `Interleaved.DeliveredInOrder` | file_ops.c:92-201 | Delivered timestamps strictly increase over the whole session |
| `Interleaved.NothingSkipped` | file_ops.c:94-124 | When the end is reported, every message valid at each call so far has been delivered |
| `Interleaved.NextIsNewerIff` | file_ops.c:96-112 | A call delivers something newer than what was delivered last if and only if everything now in the block it expects is newer than that |
| `Interleaved.InOrderIff` | file_ops.c:92-201 | Whatever happens between its calls, a session delivers in strictly increasing order if and only if at each call the block it stands at holds nothing as old as what it delivered last |
| `Witnesses.DeliveredOutOfOrder` | file_ops.c:96-98 | A run from an empty device in which a session delivers timestamp 5 and then timestamp 3 |
| `Witnesses.ReturnsUnset` | file_ops.c:127-129 | A run from an empty device after which any call of a session returns the unset value and leaves it at the end of the file, so that the message it found is never delivered |
| `Witnesses.HiddenByTheBound` | file_ops.c:65-66 | A run from an empty device of four blocks whose third message no session with large buffers ever delivers |
| `Witnesses.CutOffByAnEmptyMessage` | file_ops.c:65-66 | A run from an empty device that leaves every byte within the bound and a message that is never delivered, behind an empty one |
| `Witnesses.PutInvalidated` | syscalls.c:137-361 | A put and an invalidation of the block it took leave the list as it was |
| `Image.ListFromCorrect` | bldms.c:183-217 | The list rebuilt from the blocks holds exactly the valid entries, by timestamp and, among equal ones, by decreasing block |
| `Image.MountInvIff` | bldms.c:183-221 | Mounting a device leaves array, list and device in agreement, with every listed message inside its block, if and only if each valid block declares a length that fits |
| `Image.MalformedIsListed` | bldms.c:196-215 | On any other device the mount lists a message that ends beyond its block |
| `Image.KeySortedUnique` | rcu.c:87-96 | A list in that order is determined by its elements alone |
| `Image.RemountRestores` | bldms.c:183-221 | A remount restores array, device and list elements, and the list order if and only if equal timestamps were listed by decreasing block |
| `Image.RemountAfterRun` | bldms.c:183-221 | After any run that leaves distinct timestamps a remount gives the same array, device and list, and the next search starts after the newest message, or at block 0 if there is none |
| `Image.MountAnswers` | bldms.c:69-157 | By the bytes of the image: a mount answers EBADF exactly for another magic number, E2BIG exactly for a recorded size above 1000 blocks, EIO exactly for an image shorter than it claims, and otherwise succeeds |
| `Image.MountedBytes` | bldms.c:183-217 | A mount reads data block k of the image as block k of the device, byte by byte, and its record as entry k of the array |
| `Image.MountOfImage` | bldms.c:183-221 | Mounting a valid preamble followed by the blocks of any device gives that device |
| `Image.FormattedIsPreamble` | bldmsmakefs.c:81-122 | What the formatter writes first is such a preamble |
| `Image.RemountImageAfterRun` | bldms.c:183-221 | After any run that leaves distinct timestamps, mounting the image of the device gives the store back, and the next search starts after the newest message |
| `Witnesses.RemountReorders` | bldms.c:183-217 | A run from an empty device after which a remount exchanges two messages with equal timestamps |
| `Image.PreambleCorrect` | bldmsmakefs.c:81-122 | Version, magic number, mode, inode number and size are read back from the preamble, whatever the uninitialised bytes |
| `Image.Format` | bldmsmakefs.c:77-221 | The formatter writes superblock, inode and data blocks of zeros for the whole image, byte by byte as described, and leaves any tail of the file as it was |
| `Image.FormatThenMount` | bldmsmakefs.c:100 | Formatting then mounting gives an empty store of size/4096 - 2 blocks, or E2BIG exactly if the recorded size is above the limit, as it is after wrap-around for images below two blocks |
| `Image.FormattedDeviceFillsInOrder` | bldms.c:221 | On a freshly formatted and mounted device of N blocks the k-th put takes block k - 1, and every put after the N-th is refused with ENOMEM |

## Left out

- System call table discovery and patching (`usctm/`, `lib/usctm.c`): raw addresses and page tables, no property of the store.
- VFS and inode plumbing (lookup, directories, superblock wiring, module reference counts): calls into kernel code that is not part of this model. Only the read-access flag and the mounted check of open and seek are kept.
- Failing allocations, block reads and user-space copies: they are taken to succeed. In particular put's path after a failed block read (syscalls.c:166-169), which frees a record the array still points to, is not modelled. Only a mount of an image shorter than it claims is taken to fail, with EIO; the check for it at bldms.c:77 tests the wrong variable.
- A null superblock (EINVAL): a mounted device always has one in the model.
- Unmount and the teardown of a failed mount (rcu.c:134-146, bldms.c:228-245): an unmounted device simply has an empty list and is mounted again from its blocks.
- `remove_valid_block` (rcu.c:105-126) has no callers; its list part is modelled, and its grace period and free are those of `invalidate_data`. `add_valid_block` and `add_valid_block_secure` (rcu.c:38-67) have no callers and do not keep the order.
- The clock is a parameter of put, read before the lock is taken; any value may come.
- Write-back and crashes: the buffer cache is taken as the device.
- Hardware memory ordering and sleeping inside sections: each step of the concurrent machine is atomic, in program order.
- The step machine keeps next pointers only: prev pointers are followed by writers alone, under the lock, and are covered by the sequential `LinkedList`.
- Concurrent use of one open file: the source says that read is not synchronized for it.
- A read of the file is one section of the concurrent machine; the session layer takes each call as one step.
- The sample messages of the formatter's FILL_DEV build, and the bytes it writes without setting them, which are a parameter of `Format`.
- The 64-bit offset and the C `int` return value of read are not bounded in the model: an image has at most 1000 data blocks, so they cannot overflow.
- Linearizability.SectionCopiesStoredMessage: one direction only, since after a reuse the new block may happen to hold the same bytes; `Provenance` says where each byte comes from in all cases, and the two runs of `Reuse` show that the condition cannot be dropped or weakened to the time between match and copy.
- Interleaved.DeliveredInOrder: for buffers that hold any message. With smaller ones `DeliversAPiece` says what each call delivers; a session may then continue in the middle of a newer message that has taken the block.
- Linearizability.MissedWasAbsent: speaks of get_data's block; for the timestamp search of read the statement is `ListedThroughoutIsNotMissed`.
- LinkedList.ValidList.Remove: the grace period and the free are steps of the concurrent machine, not of this layer.
- Driver.Bldms.PutData: failing allocations, user copies and block reads and a null superblock are not modelled, as said above.
- Driver.Bldms.InvalidateData: the failing block read is not modelled; the grace period and the free are steps of the concurrent machine.
- Driver.Bldms.Mount: an image without a superblock fails with EIO, where the source would dereference a null buffer.
- Driver.Bldms.GetData: does not cover devices on which a valid block declares more than 4086 bytes; what the source copies from beyond the block's buffer cannot be seen.
- FileOps.OpenFile.CopyOut: the same devices are not covered.
- FileOps.OpenFile.Read: the same devices are not covered.
