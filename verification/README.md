# Kernel memory and process services, in Dafny

A model of four stateful parts of the kernel and proofs about them.

* **Physical pages** (`Powers`, `FreeLists`, `FreeListLinks`, `PhysicalMemory`, `AllocatorRuns`).
  The buddy allocator keeps 52 free lists over one managed range. `FreeLists` gives the lists as values
  and shows that every operation keeps them *canonical*: list k holds exactly the aligned runs of 2^k free
  pages that cannot be merged, so the lists are a function of the set of free pages.
  `FreeListLinks` is the list threaded through the free pages themselves, and the class
  `PhysicalMemoryManager` is the code, proved against both. `AllocatorRuns` is about whole runs, in which
  blocks may come back in pieces or joined; its method `ServeAll` shows that the code takes those steps.
* **Page tables** (`EntryBits`, `PageTables`, `PageTableCopy`, `VirtualMemory`, `AddressSpaces`).
  An address space means three functions on pages: `Translate`, the frame and leaf permissions,
  `Missing`, how many tables the page still lacks, and `TraceOf`, the user bits of the table entries on the
  way and the entry the walk ends at; `OpenToUser` says that all these bits are set. Mapping, protecting, unmapping, splitting large pages
  and copying are stated as changes of these; tables come from, and go back to, the allocator above, so
  an operation that allocates succeeds exactly if the free pages suffice. `AddressSpaces` puts two
  address spaces over one allocator, gives every edit a meaning on values and proves that the code does
  that over every interleaving and writes nothing else: the upper halves and every page of any other address
  space stay as they are. `EntryBits` ties the record of an entry's fields to the
  64-bit words and masks of the code.
* **Sockets and pipes** (`RingBuffers`, `SocketAddresses`, `SocketLinks`, `Sockets`, `PipeStreams`, `Pipes`).
  The links between sockets and the tracked pipe descriptors are step systems over values, with lemmas
  over all runs; the classes are the code and each of their methods is proved to take one of those steps.
  The byte ring remembers, as ghost fields, everything that ever went in and came out, and its invariant
  says that nothing was lost, duplicated or reordered. Only `SocketRead`, `SocketWrite`, `PipeRead` and
  `PipeWrite` may write a ring, as their `modifies` clauses say.
* **Queues and scheduling** (`IntrusiveQueues`, `Scheduling`, `Synchronization`).
  The linked queue refines a sequence of nodes; on it stand the round-robin scheduler, the event queues,
  which are duplicated by appending to the list that is being walked, and the futex waiters.

Where the code does not do what one might expect, the model follows the code, and the difference is stated:

* A page whose leaf entry names frame 0 is dropped by a copy (`PageTableCopy.CopiedMapping`).
* `MapPage` stores only the low 32 bits of a physical address, so frames are taken modulo 2^20.
* A pipe writer that slept and finds room does not look again whether a reader is left, so a byte can go
  into a pipe that nobody can read: `Pipes.WriteAfterLastReader` is such a run, `Pipes.PipeManager.PipeWrite`
  says exactly when it happens, and `PipeStreams.UnreadForGood` that the byte is never read.
* Pending clients can be dropped and keep the listener as their peer. This happens in two ways: `listen` with
  a smaller backlog drops the youngest ones, and `accept` drops the oldest one if no socket can be created
  for it, as when the socket table is full. `SocketLinks.ListenStrands` says exactly which clients a listen
  drops, `SocketLinks.NextStrands` that no other step drops any, and `SocketLinks.StrandedStays` that no
  later step but a close releases them. `SocketLinks.RunLinked` shows that the links stay sound.
* A failed `CopyPageMapL4Table` gives back only the tables it had linked, and every other page that was free
  before is lost; its contract says how many pages are left.
* A stream INET socket can never be shut down, because nothing ever sets its remote address
  (`Sockets.SocketManager.ShutdownSocket`).

## Model

| member | source | states |
|---|---|---|
| Powers.XorIsSibling | Kernel/Memory/PhysicalMemoryManager.cpp:320-350 | for an aligned block, xor with its size gives the other half of the double block: one block up if the block is a lower half, one down if it is an upper half |
| FreeLists.MaximalIsLargest | Kernel/Memory/PhysicalMemoryManager.cpp:320-350 | a free run whose sibling is not free is contained in no larger free aligned run, and conversely: looking at one sibling is enough |
| FreeLists.GrowToMaximal | Kernel/Memory/PhysicalMemoryManager.cpp:236-250 | every free aligned run lies inside a listed (maximal) one |
| FreeLists.SiblingsNotBothListed | Kernel/Memory/PhysicalMemoryManager.cpp:320-350 | two siblings of one order are never both on a free list below the largest order |
| FreeLists.AllocateCanonical | Kernel/Memory/PhysicalMemoryManager.cpp:236-270 | taking the first block of the smallest sufficient order and halving it leaves canonical lists of the remaining free pages, and the block handed out was an aligned free run |
| FreeLists.AllocateComplete | Kernel/Memory/PhysicalMemoryManager.cpp:219-271 | an allocation fails if and only if no aligned run of the requested order is entirely free |
| FreeLists.FreeCanonical | Kernel/Memory/PhysicalMemoryManager.cpp:320-358 | merging with free siblings leaves canonical lists of the free pages plus the block given back |
| FreeLists.FreeUndoesAllocate | Kernel/Memory/PhysicalMemoryManager.cpp:236-270 | giving a block back right after taking it restores every list, order of entries included |
| FreeLists.CanonicalDetermined | Kernel/Memory/PhysicalMemoryManager.cpp:135-175 | two canonical lists of the same free pages hold the same blocks, order by order |
| FreeLists.ListedBlocksPartition | Kernel/Memory/PhysicalMemoryManager.cpp:135-175 | every free page lies in exactly one listed block, and no other page lies in any |
| FreeLists.ListedPagesIsFreeCount | Kernel/Memory/PhysicalMemoryManager.cpp:251-270 | the summed size of the listed blocks is the number of free pages |
| FreeListLinks.UnlinkLinked | Kernel/Memory/PhysicalMemoryManager.cpp:100-126 | redirecting one link word takes exactly one block out of one list and leaves all others chained |
| PhysicalMemory.OrderForIsLeast | Kernel/Memory/PhysicalMemoryManager.cpp:79-93 | the order of a request is the least one whose block is large enough, capped at the largest order |
| PhysicalMemory.FloorLog2Pages | Kernel/Memory/PhysicalMemoryManager.cpp:63-77 | the result is the largest order whose block is not larger than the request, capped at the largest order |
| PhysicalMemory.CeilLog2Pages | Kernel/Memory/PhysicalMemoryManager.cpp:79-93 | the computed order is the least sufficient one |
| PhysicalMemory.PhysicalMemoryManager.RemoveBlockFromFreeList | Kernel/Memory/PhysicalMemoryManager.cpp:100-126 | reports whether the block was listed at this order, and removes it and nothing else |
| PhysicalMemory.PhysicalMemoryManager.InitializeMemoryDescriptors | Kernel/Memory/PhysicalMemoryManager.cpp:457-519 | manages, with every page free, memory of one conventional descriptor below the limit, none of it before the place the boot loader had reached; no unused memory of one descriptor has more pages, and none of an earlier descriptor as many; only that stretch must start at a nonzero page boundary |
| PhysicalMemory.UsableIsUnused | Kernel/Memory/PhysicalMemoryManager.cpp:457-519 | what a descriptor offers is unused memory, and no unused memory of it has more pages |
| PhysicalMemory.PhysicalMemoryManager.InitializeBuddyAllocator | Kernel/Memory/PhysicalMemoryManager.cpp:135-175 | carving the range leaves canonical lists with every page free, for every size of range |
| PhysicalMemory.CarveStep | Kernel/Memory/PhysicalMemoryManager.cpp:149-175 | the largest block that still fits is always aligned at the carving offset, and listing it keeps the lists canonical |
| PhysicalMemory.PhysicalMemoryManager.AllocatePagesFromDescriptor | Kernel/Memory/PhysicalMemoryManager.cpp:219-271 | null if and only if nothing was asked or no aligned free run of the order exists; otherwise the block was free, aligned and in range, it starts the first listed block of the smallest sufficient order, exactly its pages leave the free set, and the invariant holds: the late failure and the clamps are never taken |
| PhysicalMemory.PhysicalMemoryManager.FreePagesFromDescriptor | Kernel/Memory/PhysicalMemoryManager.cpp:282-359 | accepts exactly the requests that name an aligned block inside the range; then exactly its pages become free and the lists are the fully merged ones; a refused request changes nothing |
| AllocatorRuns.RunSound | Kernel/Memory/PhysicalMemoryManager.cpp:219-359 | over every run of takes and of give-backs of any aligned owned block, whole, in pieces or joined, the lists stay canonical and every page of the range is either free or owned, never both |
| AllocatorRuns.TakeSound | Kernel/Memory/PhysicalMemoryManager.cpp:219-271 | a block handed out is aligned, in range and was free, and exactly its pages become owned |
| AllocatorRuns.HeldUntilGivenBack | Kernel/Memory/PhysicalMemoryManager.cpp:219-359 | over every run owned pages stay owned and off the free lists until one of them is given back, so blocks held together never overlap |
| AllocatorRuns.RunsAgree | Kernel/Memory/PhysicalMemoryManager.cpp:219-359 | two runs, even from different states, that leave the same pages free leave the same blocks on every list |
| AllocatorRuns.AllGivenBack | Kernel/Memory/PhysicalMemoryManager.cpp:135-175 | after any run that gave everything back, in whatever pieces, each list holds what the initial carving put there |
| AllocatorRuns.Conservation | Kernel/Memory/PhysicalMemoryManager.cpp:251-270 | in every reachable state listed pages equal free pages, and free pages plus owned pages equal the range |
| AllocatorRuns.ServeAll | Kernel/Memory/PhysicalMemoryManager.cpp:219-359 | for every run of requests, in which no accepted give-back names a page that is not owned, the program ends in the state the steps of the model end in |
| EntryBits.DecodeInjective | Kernel/Memory/VirtualMemoryManager.hpp:27-47 | the fields of the model's entry record cover all 64 bits of an entry: equal fields, equal entry |
| EntryBits.NonLeafDecoded | Kernel/Memory/VirtualMemoryManager.cpp:32-42 | the mask arithmetic for a table entry does to the bits what the model's builder does to the fields, the frame number being cut to 20 bits |
| EntryBits.LeafDecoded | Kernel/Memory/VirtualMemoryManager.cpp:44-68 | the same for a leaf: exactly the permissions asked for, the frame number cut to 20 bits, every other flag kept |
| EntryBits.SanitizedDecoded | Kernel/Memory/VirtualMemoryManager.cpp:85-90 | the same for a sanitized entry: present cleared, the frame number cut, every other flag kept |
| EntryBits.ValidLeafAddress | Kernel/Memory/VirtualMemoryManager.cpp:70-83 | a leaf address passes the check if and only if it is page-aligned and its frame number passes the model's check |
| PageTables.TreeFrame | Kernel/Memory/VirtualMemoryManager.cpp:177-348 | a tree of tables and its meaning depend on the pages of its own tables only |
| PageTables.PiecesMeaning | Kernel/Memory/VirtualMemoryManager.cpp:245-323 | the 512 pieces that replace a 1 GiB or 2 MiB page map each page to the same frame with the same permissions |
| PageTables.PageNumbers | Kernel/Memory/VirtualMemoryManager.cpp:417-438 | putting the four indexes of a page number together again gives the number modulo 2^36 |
| VirtualMemory.VirtualMemoryManager.SplitLargePage | Kernel/Memory/VirtualMemoryManager.cpp:245-323 | splitting a large page changes no translation; it fails exactly on an empty allocator and takes one page, which is the one table its pages lacked |
| VirtualMemory.VirtualMemoryManager.MapPage | Kernel/Memory/VirtualMemoryManager.cpp:177-348 | it succeeds exactly if there is a free page for each table the page lacks; then exactly the requested page translates to the requested frame and permissions and every other page is unchanged, siblings of a split large page included; on failure no translation changes; either way it takes as many pages as there are, up to the tables lacking, and adds only tables on the page's path; a page mapped for user mode has the user bit at every level, no page that was open to user mode is closed, and a mapping for the kernel opens none |
| VirtualMemory.VirtualMemoryManager.ProtectPage | Kernel/Memory/VirtualMemoryManager.cpp:350-404 | succeeds exactly for pages mapped by a 4 KiB entry, keeps the frame and all other bits of the entry, sets the leaf permissions, changes no other page and no user bit on the way to any |
| VirtualMemory.VirtualMemoryManager.UnmapPage | Kernel/Memory/VirtualMemoryManager.cpp:468-508 | succeeds exactly when the walk reaches a lowest-level table, clears the entry of that page and no other |
| VirtualMemory.VirtualMemoryManager.MapRange | Kernel/Memory/VirtualMemoryManager.cpp:417-438 | exactly those pages fail for which the free pages do not suffice when their turn comes, computed before the call; none fails exactly if the free pages suffice for the tables the range needs; a page that does not fail translates to the first frame plus its place, one that fails keeps its mapping, and no page outside the range changes; the pages mapped for user mode are open to it, and none is closed |
| VirtualMemory.FirstPageHolds | Kernel/Memory/VirtualMemoryManager.cpp:417-438 | the first page of a range holds the start address, as far as its low 52 bits tell |
| VirtualMemory.VirtualMemoryManager.UnmapRange | Kernel/Memory/VirtualMemoryManager.cpp:519-537 | exactly the pages of the range that reach a lowest-level table become unmapped |
| VirtualMemory.VirtualMemoryManager.CopyPageMapL4Table | Kernel/Memory/VirtualMemoryManager.cpp:547-819 | it succeeds exactly if there is a free page for each lower-half table and the root, and takes just those; a finished copy translates every lower-half page as the source does, except leaves of frame 0, lacks the same tables, has the user bits of the source's table entries and holds the present upper-half entries verbatim; finished or not, no page outside the free ones was written; after a failed one just the pages of the finished entries are free |
| VirtualMemory.VirtualMemoryManager.FreeHierarchy | Kernel/Memory/VirtualMemoryManager.cpp:92-149 | each table of the tree is given back once, children first, and nothing else is |
| PageTableCopy.CopyTableStep | Kernel/Memory/VirtualMemoryManager.cpp:625-813 | linking the finished copy of a lower table extends the copied part by one entry, on pages all taken from the allocator |
| PageTableCopy.CopiedFlags | Kernel/Memory/VirtualMemoryManager.cpp:44-90 | a copied entry is present exactly if the source's is and does not name frame 0, and keeps frame, permissions and flags; an absent entry of an upper table becomes zero |
| PageTableCopy.StoppedCopy | Kernel/Memory/VirtualMemoryManager.cpp:620-623 | what a copy that stops early has linked is a tree of pages taken from the allocator, so it can be freed |
| AddressSpaces.EditSeparate | Kernel/Memory/VirtualMemoryManager.cpp:177-508 | an edit through one root leaves the other root's lower half and the separation of their tables as they were |
| AddressSpaces.RunEdits | Kernel/Memory/VirtualMemoryManager.cpp:177-508 | for every interleaving of map, unmap and protect through two separate roots, the mappings, missing tables and user bits of both lower halves and the number of free pages are exactly what the meaning of the edits (`Edited`) makes of the initial ones, failures included; nothing else changes: both upper halves and every page outside the two trees and the free frames are kept, and the trees grow by exactly the frames taken |
| AddressSpaces.UserPagesOpen | Kernel/Memory/VirtualMemoryManager.cpp:177-348 | a page that any request of a run mapped for user mode is open to user mode at the end of the run, whatever else both address spaces requested |
| AddressSpaces.StepOpen | Kernel/Memory/VirtualMemoryManager.cpp:177-508 | no request closes a page to user mode, and only a mapping for user mode in the same address space changes a user bit |
| AddressSpaces.ConfinedStep | Kernel/Memory/VirtualMemoryManager.cpp:177-508 | one more edit through either root keeps all memory outside the two trees and the free frames, and both upper halves |
| AddressSpaces.OthersChangeNothing | Kernel/Memory/VirtualMemoryManager.cpp:177-508 | no sequence of edits through one root changes anything of the other address space |
| AddressSpaces.OwnEditsDecide | Kernel/Memory/VirtualMemoryManager.cpp:177-508 | as long as no mapping of its own runs out of free pages, an address space ends up exactly as its own edits alone would have made it, however the other ones are interleaved |
| AddressSpaces.Fork | Kernel/Memory/VirtualMemoryManager.cpp:547-819 | it succeeds exactly if the free pages suffice for a copy; then the same holds of parent and child, the parent starting from its old meaning and the child from the copied one; a failed copy leaves the parent's meaning alone; the parent keeps its upper half, the child has the same, and no page outside the parent's lower half and the free frames is written |
| AddressSpaces.CopyAndDiscard | Kernel/Memory/VirtualMemoryManager.cpp:92-149 | if and only if the free pages suffice for a copy it is made, and freeing it restores the free pages, their count and the blocks of every free list |
| AddressSpaces.MapThenUnmap | Kernel/Memory/VirtualMemoryManager.cpp:519-537 | if the free pages suffice for the tables the range needs, mapping it and unmapping it leaves exactly that range unmapped and every other page as before |
| RingBuffers.TakeByte | Kernel/Layers/Logic/InterProcessComunicationManager.cpp:241-250 | advancing the read offset around the end drops exactly the oldest byte |
| RingBuffers.PutByte | Kernel/Layers/Logic/InterProcessComunicationManager.cpp:294-308 | storing at the write offset appends exactly one byte and overwrites none that waits |
| RingBuffers.RingBuffer.Read | Kernel/Layers/Logic/InterProcessComunicationManager.cpp:221-253 | returns the oldest bytes in order and keeps the rest: all bytes accepted are those taken followed by those waiting |
| RingBuffers.RingBuffer.Write | Kernel/Layers/Logic/InterProcessComunicationManager.cpp:288-309 | accepts the longest prefix that fits and appends it |
| SocketAddresses.ComputeUnixAddressPathLength | Kernel/Layers/Logic/InterProcessComunicationManager.cpp:64-103 | a path ends before its first NUL or fills its area; a leading NUL makes the whole area an abstract name |
| SocketAddresses.GetComparableUnixPathLength | Kernel/Layers/Logic/InterProcessComunicationManager.cpp:105-123 | an abstract name is compared without its trailing NULs, any other path as it is |
| SocketAddresses.StripZerosMeaning | Kernel/Layers/Logic/InterProcessComunicationManager.cpp:105-123 | the compared part of an abstract name is a prefix that does not end in NUL, and what is dropped is all NULs |
| SocketAddresses.AreUnixPathsEqual | Kernel/Layers/Logic/InterProcessComunicationManager.cpp:125-149 | true if and only if the comparable parts are equal |
| SocketAddresses.ComparableMeaning | Kernel/Layers/Logic/InterProcessComunicationManager.cpp:105-149 | abstract names compare equal if and only if they differ in trailing NULs alone, other paths if and only if they are the same |
| SocketAddresses.InetConflict | Kernel/Layers/Logic/InterProcessComunicationManager.cpp:1160-1317 | two INET addresses conflict if and only if some packet is meant for both |
| SocketAddresses.InetRoundTrip | Kernel/Layers/Logic/InterProcessComunicationManager.cpp:1160-1317 | an INET address written to bytes is read back |
| SocketAddresses.NetlinkRoundTrip | Kernel/Layers/Logic/InterProcessComunicationManager.cpp:1160-1317 | a netlink address and its groups written to bytes are read back |
| SocketAddresses.UnixRoundTrip | Kernel/Layers/Logic/InterProcessComunicationManager.cpp:64-103 | a UNIX name that fits, a text without NULs or an abstract name, is read back from its bytes |
| SocketAddresses.BindConflictFree | Kernel/Layers/Logic/InterProcessComunicationManager.cpp:1160-1317 | an address that conflicts with no other socket's keeps all addresses conflict-free |
| SocketAddresses.OnlyMatch | Kernel/Layers/Logic/InterProcessComunicationManager.cpp:1576-1601 | among conflict-free addresses a UNIX name matches at most one socket |
| SocketLinks.OneWriter | Kernel/Layers/Logic/InterProcessComunicationManager.cpp:254-309 | a socket that does not listen has at most one possible writer, and it is linked back |
| SocketLinks.PendingOnce | Kernel/Layers/Logic/InterProcessComunicationManager.cpp:1613-1615 | a pending client is in one queue position overall |
| SocketLinks.ListenLinked | Kernel/Layers/Logic/InterProcessComunicationManager.cpp:1433-1463 | resizing a pending queue keeps every link sound, dropped clients included |
| SocketLinks.ListenStrands | Kernel/Layers/Logic/InterProcessComunicationManager.cpp:1433-1463 | a pending client stays pending if and only if its place is within the new backlog; otherwise it keeps the listener as its peer without waiting for it |
| SocketLinks.NextStrands | Kernel/Layers/Logic/InterProcessComunicationManager.cpp:1433-1463 | over all steps, a pending client is stranded if and only if the step is a listen on its listener whose backlog does not reach it, or a dequeue of it by an accept that creates no socket |
| SocketLinks.StrandedStays | Kernel/Layers/Logic/InterProcessComunicationManager.cpp:1433-1463 | over every run such a client stays so, unless it or the listener is closed |
| SocketLinks.ConnectLinked | Kernel/Layers/Logic/InterProcessComunicationManager.cpp:1603-1616 | a new pending client keeps every link sound |
| SocketLinks.FirstComeFirstServed | Kernel/Layers/Logic/InterProcessComunicationManager.cpp:1603-1732 | over every run in which a client keeps waiting, a client that connected to the same listener later stays behind it in every state, and no accept links a socket with the later one |
| SocketLinks.NextAhead | Kernel/Layers/Logic/InterProcessComunicationManager.cpp:1603-1732 | of two clients waiting for one listener no step changes the order, and one that connects is behind those that wait |
| SocketLinks.NextFrame | Kernel/Layers/Logic/InterProcessComunicationManager.cpp:947-1952 | each step tracks and untracks exactly the sockets it names and leaves the links of all sockets but its participants |
| SocketLinks.AcceptLinked | Kernel/Layers/Logic/InterProcessComunicationManager.cpp:1678-1732 | the oldest client and the accepted socket become each other's peers and every link stays sound |
| SocketLinks.CloseLinked | Kernel/Layers/Logic/InterProcessComunicationManager.cpp:1895-1949 | after a close nothing refers to the closed socket and every other link is sound |
| SocketLinks.CloseKeeps | Kernel/Layers/Logic/InterProcessComunicationManager.cpp:1895-1949 | a close clears the links to the closed socket and no other link |
| SocketLinks.RunLinked | Kernel/Layers/Logic/InterProcessComunicationManager.cpp:947-1952 | in every state that any run of steps reaches, peers are mutual or listening, pending entries are tracked, wait for their queue's owner and fit its capacity, and nothing refers to an untracked socket |
| Sockets.SocketManager.CreateSocket | Kernel/Layers/Logic/InterProcessComunicationManager.cpp:947-1110 | appends one unbound, unconnected socket with an empty buffer, or reports the first failing check and changes nothing |
| Sockets.NamedFirst | Kernel/Layers/Logic/InterProcessComunicationManager.cpp:1858-1866 | a descriptor names the first tracked socket with that owner and number, and none exactly if there is no such socket |
| Sockets.SocketErrors | Kernel/Layers/Logic/InterProcessComunicationManager.cpp:947-1110 | which error each malformed creation reports |
| Sockets.AddressErrors | Kernel/Layers/Logic/InterProcessComunicationManager.cpp:1112-1317 | which error each malformed address reports, and exactly which addresses are well-formed |
| Sockets.RequestErrors | Kernel/Layers/Logic/InterProcessComunicationManager.cpp:1112-1616 | which error bind, listen and connect report for a bad owner, descriptor or address, in order |
| Sockets.ConnectErrors | Kernel/Layers/Logic/InterProcessComunicationManager.cpp:1476-1616 | exactly which sockets and addresses a connection can be asked for, and which error the others get |
| Sockets.AcceptErrors | Kernel/Layers/Logic/InterProcessComunicationManager.cpp:1618-1696 | which error an accept reports that cannot take a client |
| Sockets.ShutdownErrors | Kernel/Layers/Logic/InterProcessComunicationManager.cpp:1735-1846 | which error a malformed shutdown reports |
| Sockets.SocketManager.BindSocket | Kernel/Layers/Logic/InterProcessComunicationManager.cpp:1112-1317 | exact result: the first failing check of the request decides, and a request that passes is refused exactly if another socket's address conflicts; otherwise only that socket's address changes and all addresses stay conflict-free |
| Sockets.SocketManager.FindEphemeralPort | Kernel/Layers/Logic/InterProcessComunicationManager.cpp:1370-1413 | the lowest port of the ephemeral range that no other bound INET socket uses; none only if all are used |
| Sockets.SocketManager.ListenSocket | Kernel/Layers/Logic/InterProcessComunicationManager.cpp:1319-1474 | exact result, check by check; on success it listens, a UNIX socket keeping as many of the oldest clients as the new backlog holds, and an unbound INET socket gets the lowest free port, which conflicts with nothing |
| Sockets.SocketManager.OnlyListener | Kernel/Layers/Logic/InterProcessComunicationManager.cpp:1574-1601 | the listener found first for a name is the only one |
| Sockets.SocketManager.ConnectSocket | Kernel/Layers/Logic/InterProcessComunicationManager.cpp:1476-1616 | exact result: the first failing check decides, then refused exactly if no socket answers to the name, EAGAIN exactly if the one that does has a full queue, otherwise the client is the listener's last pending entry, behind all earlier ones, with the listener as its peer, and no other link changes; every failure leaves all links alone |
| Sockets.SocketManager.DequeueTracked | Kernel/Layers/Logic/InterProcessComunicationManager.cpp:1678-1696 | the loop that skips untracked clients always stops at the first entry |
| Sockets.SocketManager.AcceptSocket | Kernel/Layers/Logic/InterProcessComunicationManager.cpp:1618-1733 | exact result: the first failing check decides, EAGAIN exactly if no client waits; on success the first pending client and the new socket become each other's peers and the later clients wait on in order; if no socket can be created the client is lost from the queue and nothing else changes |
| Sockets.SocketManager.ShutdownSocket | Kernel/Layers/Logic/InterProcessComunicationManager.cpp:1735-1846 | exact result: the first failing check decides, then ENOTCONN exactly for a stream without peer, which every INET stream is; exactly the directions asked for are shut down, and only on success |
| Sockets.SocketManager.RemovePendingConnection | Kernel/Layers/Logic/InterProcessComunicationManager.cpp:169-189 | the compacted queue is the old one without the closed socket, in order |
| Sockets.SocketManager.CloseSocket | Kernel/Layers/Logic/InterProcessComunicationManager.cpp:1848-1952 | closes exactly if no other entry of the owner's file table leads to the socket; then just that socket is untracked, nothing refers to it and no other link is lost; otherwise only its descriptor changes, to the lowest other one that leads to it |
| Sockets.SocketManager.SoleWriter | Kernel/Layers/Logic/InterProcessComunicationManager.cpp:254-309 | only the socket a non-listening socket is linked with can write into its buffer |
| Sockets.SocketManager.StrandedIsStuck | Kernel/Layers/Logic/InterProcessComunicationManager.cpp:388-443 | a dropped client keeps a peer, so it cannot connect again, and it can write nothing: a stream client that is not shut down for writing and does not listen gets EAGAIN on every write |
| Sockets.SocketManager.SocketRead | Kernel/Layers/Logic/InterProcessComunicationManager.cpp:311-386 | returns the front of what was buffered and keeps the rest, exactly from an open stream with bytes; a read for at least one byte returns 0 exactly at the end of the stream |
| Sockets.SocketManager.SocketWrite | Kernel/Layers/Logic/InterProcessComunicationManager.cpp:377-443 | appends the longest prefix that fits to the peer's buffer alone, exactly for an open stream whose peer does not listen, still reads and has room; EPIPE exactly if one side was shut down; otherwise the exact error, and no byte moves |
| Sockets.SocketManager.ReadErrors | Kernel/Layers/Logic/InterProcessComunicationManager.cpp:311-386 | which error a read reports that takes nothing |
| Sockets.SocketManager.WriteErrors | Kernel/Layers/Logic/InterProcessComunicationManager.cpp:377-443 | which error a write reports that is not accepted |
| PipeStreams.CountRemove | Kernel/Layers/Logic/InterProcessComunicationManager.cpp:2137-2172 | removing a row lowers the count of its own end by one and no other count |
| PipeStreams.ClosedSound | Kernel/Layers/Logic/InterProcessComunicationManager.cpp:2137-2198 | closing a pipe's last descriptor, and no other, frees it, and no pipe is freed twice |
| PipeStreams.RunSound | Kernel/Layers/Logic/InterProcessComunicationManager.cpp:1954-2201 | over every run, what was read from a pipe is a prefix of what was written to it, within the capacity, and the freed pipes are exactly those without descriptors, each once |
| PipeStreams.EndIsFinal | Kernel/Layers/Logic/InterProcessComunicationManager.cpp:581-660 | once a pipe has no writer and nothing left, no run of later steps adds a byte |
| PipeStreams.UnreadForGood | Kernel/Layers/Logic/InterProcessComunicationManager.cpp:662-748 | once a pipe has no reader, no run of later steps reads a byte from it, whatever is still written |
| Pipes.PipeManager.CreatePipe | Kernel/Layers/Logic/InterProcessComunicationManager.cpp:1954-2060 | a fresh empty pipe that the first descriptor reads and the second one writes, and counts that match, or the exact error and no change |
| Pipes.PipeManager.DuplicatePipeDescriptor | Kernel/Layers/Logic/InterProcessComunicationManager.cpp:2063-2128 | one more row, of the new descriptor, for a tracked end with its count raised; a file that is no tracked pipe end succeeds without effect |
| Pipes.PipeManager.ClosePipe | Kernel/Layers/Logic/InterProcessComunicationManager.cpp:2130-2201 | drops the first row that matches owner, descriptor and end, lowers its count and frees the pipe exactly with its last row |
| Pipes.PipeManager.PipeRead | Kernel/Layers/Logic/InterProcessComunicationManager.cpp:581-660 | returns the oldest unread bytes; a read for at least one byte returns 0 exactly at the end of the stream; otherwise it waits or reports EAGAIN, and a wait ended by a signal gives EINTR and takes nothing |
| Pipes.PipeManager.PipeWrite | Kernel/Layers/Logic/InterProcessComunicationManager.cpp:662-748 | appends the longest prefix that fits; EPIPE exactly without readers, except for a writer that slept and finds room; a full pipe makes it wait or report EAGAIN, and a wait ended by a signal gives EINTR and writes nothing |
| Pipes.WriteAfterLastReader | Kernel/Layers/Logic/InterProcessComunicationManager.cpp:687-748 | from every state with room for a pipe there is a run in which a write is accepted by a pipe that no descriptor can read |
| IntrusiveQueues.IntrusiveQueue.PushBack | Kernel/Layers/Logic/IntrusiveQueue.hpp:45-63 | appends the node to the sequence; a null node changes nothing |
| IntrusiveQueues.IntrusiveQueue.PopFront | Kernel/Layers/Logic/IntrusiveQueue.hpp:65-82 | takes the first node off the sequence and clears its link |
| IntrusiveQueues.IntrusiveQueue.Remove | Kernel/Layers/Logic/IntrusiveQueue.hpp:84-116 | takes the node out wherever it is, reports whether it was there, and writes links of the queue's own nodes only |
| IntrusiveQueues.IntrusiveQueue.FindFirst | Kernel/Layers/Logic/IntrusiveQueue.hpp:118-132 | the first node whose member has the value, null exactly if there is none |
| IntrusiveQueues.IntrusiveQueue.RotateFrontToBack | Kernel/Layers/Logic/IntrusiveQueue.hpp:134-143 | moves the first node behind the last |
| Scheduling.Scheduler.AddToReadyQueue | Kernel/Layers/Logic/Scheduler.cpp:45-57 | one new entry at the end; the current one stays current |
| Scheduling.Scheduler.RemoveFromReadyQueue | Kernel/Layers/Logic/Scheduler.cpp:67-92 | removes the first entry of the process and forgets it if it was current; the current entry stays null or the queue head |
| Scheduling.Scheduler.SelectNextProcess | Kernel/Layers/Logic/Scheduler.cpp:102-123 | the invalid id exactly on an empty queue; otherwise the entry that was current moves behind all others, none is lost, and the head is current; a first selection does not rotate |
| Scheduling.StepShortensWait | Kernel/Layers/Logic/Scheduler.cpp:45-123 | no event that spares an entry lengthens its wait, and each selection shortens it |
| Scheduling.BoundedWaiting | Kernel/Layers/Logic/Scheduler.cpp:45-123 | an entry at position k is current within k selections, k + 1 if none is current at first, whatever is added and removed in between |
| Scheduling.EntriesConserved | Kernel/Layers/Logic/Scheduler.cpp:45-123 | over every run, each entry is queued in the end as often as at first, plus its additions, less its removals |
| Scheduling.SparedStays | Kernel/Layers/Logic/Scheduler.cpp:45-123 | over every run, an entry that no removal takes stays queued |
| Scheduling.RoundRobin | Kernel/Layers/Logic/Scheduler.cpp:102-123 | as many selections as there are entries make each entry current exactly at its own turn and restore the queue |
| Synchronization.DuplicateWellKeyed | Kernel/Layers/Logic/SynchronizationManager.cpp:444-506 | appending the copies keeps process and descriptor keys and watch keys unique |
| Synchronization.CopiesComplete | Kernel/Layers/Logic/SynchronizationManager.cpp:447-503 | every queue of the source has its copy, with the same descriptor, flags and watches |
| Synchronization.CopiesSplit | Kernel/Layers/Logic/SynchronizationManager.cpp:447-503 | the copies follow each other in the order of their sources |
| Synchronization.WalkStep | Kernel/Layers/Logic/SynchronizationManager.cpp:447-503 | the walk over the list it appends to meets source queues only among the entries that were there at the start |
| Synchronization.SynchronizationManager.DuplicateEventQueuesForProcess | Kernel/Layers/Logic/SynchronizationManager.cpp:444-506 | terminates, appends exactly one copy of each source queue in order, with its flags and ordered watches, and leaves every other queue as it was |
| Synchronization.SynchronizationManager.CreateEventQueue | Kernel/Layers/Logic/SynchronizationManager.cpp:286-319 | succeeds exactly if the key is new, and appends one empty queue |
| Synchronization.ControlMeaning | Kernel/Layers/Logic/SynchronizationManager.cpp:374-442 | adding, changing and deleting a watch affect exactly the watch of that descriptor, fail exactly when it is present or absent, with the error that says so, and keep descriptors unique; a new watch is the last, a changed one keeps its place and the others keep their order |
| Synchronization.SynchronizationManager.ControlEventQueue | Kernel/Layers/Logic/SynchronizationManager.cpp:374-442 | the operation is applied to the queue of that key alone; exact errors for a queue watching itself and for a missing queue |
| Synchronization.SynchronizationManager.RemoveFutexWaitersForProcess | Kernel/Layers/Logic/SynchronizationManager.cpp:542-556 | removing while walking leaves exactly the waiters of other processes, in order |
| Synchronization.OthersSplit | Kernel/Layers/Logic/SynchronizationManager.cpp:542-556 | the waiters that are kept follow each other in their old order |
| Synchronization.SynchronizationManager.AddFutexWaiter | Kernel/Layers/Logic/SynchronizationManager.cpp:508-523 | earlier waits of the process are dropped and one is added at the end, so a process waits once |
| Synchronization.SynchronizationManager.WakeSingleFutexWaiter | Kernel/Layers/Logic/SynchronizationManager.cpp:574-600 | wakes the longest waiting process on the address, and no other |

## Left out

- A free block's link word and the contents of a table page are two maps, not one byte memory; that a page is never both is the disjointness of tables and free pages.
- MapPage: the three unrolled levels of the code are one method over a level, and so are the nested loops of the copy; the caller's well-formedness of the tables replaces the code's identity-mapping check of table addresses.
- MapRange: requires a range whose page numbers fit the 36-bit index space; the overflow guards are then never taken. Wrap-around of 64-bit addresses is not modelled.
- Execute-disable and cache bits take no part in `Translate` or `OpenToUser`; of a table entry that is rewritten or copied the cache bits are not followed.
- FreePagesFromDescriptor: requires that a block the checks accept is not free already, which the code does not check; the runs of `AllocatorRuns` give back owned pages only.
- DuplicateEventQueuesForProcess: requires distinct processes and a destination without queues, as fork provides.
- PipeRead: a caller must hold a tracked row for the end it uses, also while it waits; waiting is a result after which the call goes on. When a signal wakes a waiter is left open. The same holds for PipeWrite.
- SocketRead: the open file is the tracked socket it leads to, and buffers are never null. The same holds for SocketWrite.
- CloseSocket: descriptors of other processes that share a socket are not modelled, as the code looks at the owner's table only.
- Allocation by `new` never returns null, so the out-of-memory results are left out.
- `ProtectRange`, `AllocatePagesFromMemoryMap`, `RemoveWatchesForFile`, `RemoveEventQueue`, single futex removal, the queue destructors are not modelled.
- Sleep, terminal and wake-up queues with their ticks; ready-event lists of event queues.
- Poll, seek, memory-map and ioctl operations; the listen backlog as a separate number.
- TLB flushes, debug records and printing.
