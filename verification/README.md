# Verified model of the FUSE user-space library

A Dafny model of the parts of `project/fuse/lib` that keep state by pointer surgery, with proofs that they
keep their promises over every run. `dafny verify dfyconfig.toml` checks everything. Each file is one module:

- `RecordLocks` – POSIX byte-range locks: one list shared by all owners, merged, trimmed, split and deleted
  in place, and its meaning as a map from (owner, offset) to a lock type.
- `NodeTables` – the two inode hash tables, growing one bucket at a time and shrinking up to eight at a time,
  as finite maps.
- `FuseTables` – the two tables together, behind the maps of nodes and names.
- `NodeIds` – the generator of (node id, generation) pairs.
- `InodeTree` – nodes, names, parents and reference counts; the deletion cascade.
- `TreeLocks` – what the `treelock` numbers stand for and what locking and unlocking a path does to them.
- `TreeProtocol` – the invariant that ties tree, counts and path locks together, and one lemma per critical
  section that it is kept.
- `LockQueue` – the queue of requests waiting for paths: flags, partial locking, marks.
- `PathNames` – what a path string means: where its names lead from the root.
- `PathBuffer` – the buffer in which a path is built from right to left.
- `FuseNodes` – the object `struct fuse` with the critical sections as methods, proved against the modules
  above. It owns both hash tables, and every method keeps them standing for its nodes and names (`TablesOk`),
  in the middle of a cascade of deletions too.
- `LostMark` – a run of these methods that leaves a mark behind.
- `DirStream` – the directory buffer, its wire format, and readers paging through it.
- `Slabs` – the slab allocator, down to the circular lists threaded through the pages.
- `Interrupts` – request and interrupt bookkeeping of the low-level library.
- `OptionGroups`, `ArgParser` – escaping, splitting and normalising options.
- `Symlinks` – rewriting absolute symlinks in the `subdir` module.
- `BufCopy` – scatter/gather copying between memory and descriptors with short reads and writes.
- `Options` – the option type.

## Concurrency

A method of `FuseNodes.Fuse` or `Interrupts.LowLevel` is one stretch of code between taking and giving up the
library's mutex, so a run of the library is a sequence of method calls in any order by any requests; what
every method requires and ensures (`Valid`) holds in every reachable state. A request that waits is an
element of the queue, and returns through `FinishWait` or `ForgetResume`. The held paths (`held`), the "."
lookups in flight (`dots`), the kernel's lookups of every node (`lookups`), the issued ids, the callbacks called
and the destroyed requests are ghost state: they say who holds what, and never influence the code.

## What the code does where one might expect otherwise

- A waiting-writer mark (`INT_MIN` added to a reader count) can outlive its waiter: a queued request for two
  paths that has marked the child of one and then fails because the other path is gone leaves the mark, so
  new readers of that child wait until its present readers are gone. Every method keeps "each mark has a
  waiting writer", except that the turn of a waiting element loses it exactly when `LeavesMark` holds before
  the turn (`QueueElementWakeup`, `WakeUpQueued`, `FreePath`, `FreePath2`); a request that holds one of its
  paths never does. `LostMark.MarkOutlivesWaiter` is a run from the start that does. That each mark has a
  reader holds always.
- `wake_up_queued` also wakes requests that are finished but whose threads have not run yet, and these try
  their paths once more. This is harmless for what they hold and what they are told, because a path that is
  gone stays gone and never makes a request wait (`Settled`, `GoneStays`, `GoneFails`), but a failed request
  for two paths can make a mark in this way too (`LeavesMark` covers it).
- When the new name of a renamed node cannot be allocated, the node keeps no name at all and the name that
  was to be replaced is gone too (`RenameNode`).
- A callback that is called from inside `fuse_req_interrupt_func`, because an interrupt came first, must not
  answer its request: `fuse_free_req` then destroys the request while `fuse_req_interrupt_func` holds its lock
  and is going to release it (`Interrupts.RepliesAtOnce`), or leaves that to an interrupt whose delivery
  ends meanwhile (`DeliveryEndsFirst`). No other thread may answer it meanwhile either; a callback called on
  delivery of an interrupt may. `FreeReq`, `DestroyReq` and `HandlerDone` say exactly when a held lock is
  destroyed, and no run in which clients keep to this rule destroys one (`PoliteIsSafe`).
- The length of the directory buffer is a 32-bit number. A listing without offsets whose encoding is 2^32
  bytes or longer loses entries and is cut, without an error (`FillDir`); the buffer holds the listing if and
  only if its encoding is shorter (`PassWhole`, `Readdir`).
- After a file system that pages by itself has listed nothing at some position, the buffer counts as filled,
  and every position but zero reads as empty from then on, also one that had entries (`SeekBack`); `Readdir`
  says exactly when a page is the right one.
- An empty option at the start of a group is lost by `add_opt_common`; reading a built group gives exactly
  the added options if and only if there is one option or the first is not empty (`GroupRoundTrip`).
- The comment at `project/fuse/lib/fuse_opt.c:388` says that a trailing "--" is removed. The code removes it
  only when no options were collected, because inserting the group does not move the remembered position;
  the model follows the code, and parsing is idempotent all the same.
- `locks_insert` allocates its spare nodes for every request but the one that unlocks everything, so other
  unlocks may fail for lack of memory.
- `fuse_buf_copy` does not advance the destination's cursor for the last copy when the source runs out
  (`CursorsMoved` in `BufCopy` says by how much it lags).
- When the array of a hash table cannot grow at the end of a phase, the load bound
  `use < size / 2 + split` may be lost; `NodeTable.Insert` says exactly when.

## Assumptions about the surroundings

- The kernel forgets between one and `nlookup` lookups of a node, keeps a lookup on the directory it operates
  in and on the child it removes or renames, and serialises operations on a directory, so that the node found
  when a path is locked is the one removed or renamed, until it has been answered (`KernelKeeps`,
  `MayForget`). A "." lookup keeps its directory alive itself.
- Fewer than 2^31 - 1 paths are held at a time, counting two for every element of the queue when the queue is
  woken, and a path string with its terminator is shorter than 2^32 bytes, which is what the counters of
  `add_name` can hold.
- The reader of a whole directory (`ReadWhole`) is given one that encodes to less than 2^32 bytes, and names
  are shorter than 2^31.
- Fewer than 2^32 - 2 nodes are live when a new one is wanted; otherwise `next_id` would not end.
- A file system that pages by itself gives every entry its own non-zero offset.
- No two live requests of the low-level library have the same id.
- A page holds at least one inode, the page size is a power of two, and `mmap` returns an aligned page that is
  not in use.
- Allocation may fail where a parameter `memory`, `alloc`, `copy` or `hashes` says so, and succeeds otherwise.

## Model

| member | source | states |
|---|---|---|
| `RecordLocks.LockList.Insert` | project/fuse/lib/fuse.c:3735-3807 | afterwards the inserting owner holds exactly the requested type on [start, end] and every other (owner, offset) is as before; the list stays canonical; it fails, changing nothing, exactly when a spare node was needed and could not be had; other owners' entries are untouched |
| `RecordLocks.MergeStep` | project/fuse/lib/fuse.c:3758-3769 | absorbing a touching lock of the same type leaves the pointwise meaning of "list overlaid with the request" unchanged |
| `RecordLocks.TrimStep` | project/fuse/lib/fuse.c:3771-3789 | each of the four cuts of an overlapping lock of another type (all of it, its end, its start, its middle) keeps the list canonical and the overlaid meaning unchanged |
| `RecordLocks.AlreadyHeld` | project/fuse/lib/fuse.c:3763-3764 | a lock of the same type that contains the request makes the list right as it is |
| `RecordLocks.InsertStep` | project/fuse/lib/fuse.c:3798-3802 | inserting the request where the walk stopped gives a canonical list whose meaning is the pointwise update |
| `RecordLocks.NothingLeft` | project/fuse/lib/fuse.c:3798-3802 | for F_UNLCK nothing is inserted and the list already means the update |
| `RecordLocks.OutsideRange` | project/fuse/lib/fuse.c:3753-3802 | no lock ever covers an offset outside [0, OFFSET_MAX] |
| `RecordLocks.CanonicalFormUnique` | project/fuse/lib/fuse.c:3735-3807 | two canonical lists that give an owner the same type at every offset hold the same intervals for it: the list is determined by the POSIX lock state it stands for |
| `RecordLocks.LockList.Conflict` | project/fuse/lib/fuse.c:3709-3720 | a conflict is reported exactly if some other owner's type at some offset of the probe is incompatible with it, and then a lock really in the way; otherwise the probe comes back |
| `RecordLocks.ConflictWitness` | project/fuse/lib/fuse.c:3709-3720 | an entry that conflicts rules the probe out at every offset they share |
| `RecordLocks.NoConflict` | project/fuse/lib/fuse.c:3709-3720 | if no entry conflicts, no offset of the probe is ruled out |
| `RecordLocks.LockList.SetLk` | project/fuse/lib/fuse.c:3942-3958 | a kernel set-lock request updates the caller's type on exactly the kernel's inclusive range, through the conversions of both layers |
| `RecordLocks.LockList.GetLk` | project/fuse/lib/fuse.c:3916-3940 | a kernel get-lock request is answered, exactly when something is in the way, with one lock of another owner that is: a range overlapping the asked one, held throughout and no further, incompatible, with its process id; otherwise the request comes back as it was |
| `RecordLocks.LockList.FlushUnlock` | project/fuse/lib/fuse.c:3828-3858 | closing a file removes all locks of that owner and nothing else, without being able to fail for lack of memory |
| `RecordLocks.LockList.constructor` | project/fuse/lib/fuse.c:441-443 | a node starts without locks |
| `NodeTables.ModOfDouble` | project/fuse/lib/fuse.c:485-494 | (h mod 2N) mod N = h mod N, and h mod 2N is h mod N or h mod N + N |
| `NodeTables.BucketRange` | project/fuse/lib/fuse.c:485-494 | the selected bucket is always below split + size / 2 |
| `NodeTables.BucketAfterSplit` | project/fuse/lib/fuse.c:630-644 | advancing the split moves keys only from the divided bucket to its partner, and the partner was unused before |
| `NodeTables.BucketAtPhaseEnd` | project/fuse/lib/fuse.c:645-646 | at the phase end the bucket is the one selected in the doubled table with no bucket divided |
| `NodeTables.UpperBucketsEmpty` | project/fuse/lib/fuse.c:546-658 | every bucket at or above split + size / 2 is empty |
| `NodeTables.InChain` | project/fuse/lib/fuse.c:496-506 | every stored node is in the one bucket its hash selects for the current size and split |
| `NodeTables.InsertOk` | project/fuse/lib/fuse.c:649-658 | pushing a node onto its bucket represents the map with that key added |
| `NodeTables.RemoveOk` | project/fuse/lib/fuse.c:588-601 | unlinking a node represents the map without that key |
| `NodeTables.SplitOk` | project/fuse/lib/fuse.c:620-647 | dividing one bucket between itself and its partner represents the same map at the next split |
| `NodeTables.DivideStep` | project/fuse/lib/fuse.c:632-644 | one step of the division keeps both chains together holding exactly the old chain, each key on its own side |
| `NodeTables.MergeOk` | project/fuse/lib/fuse.c:562-586 | appending the partner's chain represents the same map at the previous split |
| `NodeTables.DoubleOk` | project/fuse/lib/fuse.c:603-618 | the doubled array represents the same map with no bucket divided |
| `NodeTables.HalveOk` | project/fuse/lib/fuse.c:546-560 | the halved array represents the same map with every bucket divided |
| `NodeTables.NodeTable.constructor` | project/fuse/lib/fuse.c:4547-4559 | an empty table of 8192 slots, under its load bound |
| `NodeTables.InitTables` | project/fuse/lib/fuse.c:4689-4692 | both tables start empty, one over the id hash and one over the name hash, and everything below holds of each |
| `FuseTables.Tables.constructor` | project/fuse/lib/fuse.c:4689-4692 | both tables stand for empty maps |
| `FuseTables.Tables.HasId` | project/fuse/lib/fuse.c:496-506 | an id is found exactly if it is that of a node |
| `FuseTables.Tables.FindName` | project/fuse/lib/fuse.c:821-833 | a name is looked up as in the map of names |
| `FuseTables.Tables.AddId` | project/fuse/lib/fuse.c:649-658 | one id more, and exactly when the load bounds survive |
| `FuseTables.Tables.AddName` | project/fuse/lib/fuse.c:777-784 | one name more, and exactly when the load bounds survive |
| `FuseTables.Tables.RemoveId` | project/fuse/lib/fuse.c:588-601 | one id less, under the load bounds |
| `FuseTables.Tables.UnlinkName` | project/fuse/lib/fuse.c:708-714 | one name less, still counted |
| `FuseTables.Tables.DiscountName` | project/fuse/lib/fuse.c:720-723 | the count catches up, under the load bounds, whatever is still pending |
| `NodeTables.NodeTable.Find` | project/fuse/lib/fuse.c:496-506 | lookup returns the map's answer, for ids and for (parent, name) |
| `NodeTables.NodeTable.Insert` | project/fuse/lib/fuse.c:649-658 | the map gains the key; the load bound use < size / 2 + split with split < size / 2 survives if and only if the array could grow or was not at the end of a phase with every place taken |
| `NodeTables.NodeTable.Rehash` | project/fuse/lib/fuse.c:620-647 | the map is unchanged; exactly one more bucket is divided, and the array doubles at the end of a phase if memory allows |
| `NodeTables.NodeTable.DivideBucket` | project/fuse/lib/fuse.c:630-644 | the map is unchanged while one chain is divided in place |
| `NodeTables.NodeTable.Resize` | project/fuse/lib/fuse.c:603-618 | the map is unchanged; the size doubles exactly if memory allows |
| `NodeTables.NodeTable.Remove` | project/fuse/lib/fuse.c:588-601 | the map loses the key and the load bound survives |
| `NodeTables.NodeTable.Unlink` | project/fuse/lib/fuse.c:705-712 | the first half of unhash_name: the key is gone from the map while it still counts, whatever else is pending |
| `NodeTables.NodeTable.Discount` | project/fuse/lib/fuse.c:717-720 | the second half: the count catches up by one and the table may shrink, with the map unchanged and the load bound kept, however many removals are still pending further up |
| `NodeTables.NodeTable.RemoveCascade` | project/fuse/lib/fuse.c:705-731 | nested removals, each re-entered between its unlinking and its counting: the map loses exactly their keys, the count is exact again and the load bound survives |
| `NodeTables.NodeTable.Remerge` | project/fuse/lib/fuse.c:562-586 | the map is unchanged and the table under its load bound after at least one and at most eight divisions are undone, even when the array cannot be moved |
| `NodeTables.NodeTable.MergeLast` | project/fuse/lib/fuse.c:570-585 | the map is unchanged while the last division is undone |
| `NodeTables.NodeTable.Reduce` | project/fuse/lib/fuse.c:546-560 | the map is unchanged; the size is halved but never drops below 8192 |
| `NodeIds.IdGenerator.NextId` | project/fuse/lib/fuse.c:810-819 | the id is neither 0 nor FUSE_UNKNOWN_INO nor in use; ids passed over were all unusable; the search ends; until the generation number wraps, the (id, generation) pair was never handed out before |
| `NodeIds.PairsDistinct` | project/fuse/lib/fuse.c:810-819 | any two positions of the counter less than 2^64 steps from the start have different (id, generation) pairs |
| `NodeIds.PairStep` | project/fuse/lib/fuse.c:813-815 | the counter advances by one id, and the generation by one whenever the id wraps |
| `NodeIds.FreeIdExists` | project/fuse/lib/fuse.c:810-819 | with fewer than 2^32 - 2 live nodes some id is free, so the search terminates |
| `NodeIds.IdGenerator.Step` | project/fuse/lib/fuse.c:813-815 | one step of the counter is one step along the sequence of pairs |
| `InodeTree.LiveExactly` | project/fuse/lib/fuse.c:788-879 | the live nodes are exactly those with lookups or in-flight "." lookups and all their ancestors |
| `InodeTree.LastReference` | project/fuse/lib/fuse.c:802-808 | a node on its last reference is not the root, is not looked up and has no named children |
| `InodeTree.DeleteCounts` | project/fuse/lib/fuse.c:788-800 | deleting such a node leaves every count exact but for one reference owed by its parent |
| `InodeTree.DeleteTree` | project/fuse/lib/fuse.c:705-731 | deleting a childless node leaves both tables describing the same forest |
| `InodeTree.ReleaseKeeps` | project/fuse/lib/fuse.c:705-808 | the whole cascade of deletions, which terminates, leaves tree and counts exact |
| `InodeTree.ReleaseSpares` | project/fuse/lib/fuse.c:705-808 | the cascade never deletes a node that is wanted, nor any of its ancestors |
| `InodeTree.ReleaseFrame` | project/fuse/lib/fuse.c:705-808 | the cascade changes nothing off the path to the root and nothing but counts on it |
| `InodeTree.ChainNoRepeat` | project/fuse/lib/fuse.c:914-933 | a walk up the parent pointers never meets a node twice |
| `InodeTree.ChainUnique` | project/fuse/lib/fuse.c:914-933 | there is one walk up from a node |
| `InodeTree.ChainBounded` | project/fuse/lib/fuse.c:705-808 | no walk, and so no cascade, is longer than the number of nodes |
| `InodeTree.CutKeeps` | project/fuse/lib/fuse.c:705-731 | taking a node's name away leaves the tree a forest and one reference owed by the old parent |
| `InodeTree.LinkInKeeps` | project/fuse/lib/fuse.c:762-786 | giving a nameless node a name in a directory it is no ancestor of keeps forest and counts exact |
| `InodeTree.NewNodeKeeps` | project/fuse/lib/fuse.c:842-879 | a new node keeps forest and counts exact |
| `TreeLocks.WriterExcludes` | project/fuse/lib/fuse.c:914-933 | a write-locked node is on no held path, has one writer, and its tree lock is -1 |
| `TreeLocks.TryPathGot` | project/fuse/lib/fuse.c:935-1015 | taking a path's locks makes every tree lock encode one more holder and the path string the right one |
| `TreeLocks.TryPathFailed` | project/fuse/lib/fuse.c:935-1015 | a failing attempt changes nothing but, at most, a mark on the child to be write-locked |
| `TreeLocks.MarkKeeps` | project/fuse/lib/fuse.c:964-970 | the mark leaves every tree lock a valid encoding of its holders |
| `TreeLocks.UnlockKeeps` | project/fuse/lib/fuse.c:914-933 | giving a path back makes every tree lock encode one holder less: the walk up parent pointers releases exactly the nodes taken, and meets none of the assertions |
| `TreeLocks.TryPath2Atomic` | project/fuse/lib/fuse.c:1203-1222 | a failing attempt at two paths is atomic as well, even when one path contends with the other |
| `TreeLocks.ChildOffChain` | project/fuse/lib/fuse.c:962-974 | the child to be write-locked is never on the path it hangs from |
| `TreeLocks.UnlockedUninvolved` | project/fuse/lib/fuse.c:1287-1323 | a node whose tree lock is zero is on no held path |
| `TreeLocks.LockedInvolved` | project/fuse/lib/fuse.c:1287-1323 | a node whose tree lock is not zero is on a held path or write-locked |
| `TreeProtocol.ReleaseInv` | project/fuse/lib/fuse.c:788-808 | dropping a reference meets none of the assertions on the way up (counts positive, deleted nodes unlocked and found by name) and keeps the whole invariant |
| `TreeProtocol.LastReferenceUnlocked` | project/fuse/lib/fuse.c:788-808 | a node on its last reference is involved in no held path, so its tree lock is zero when it is deleted |
| `TreeProtocol.DeleteInv` | project/fuse/lib/fuse.c:788-800 | deleting such a node disturbs no held path |
| `TreeProtocol.IncLookupInv` | project/fuse/lib/fuse.c:835-840 | one more lookup keeps the invariant |
| `TreeProtocol.AddNodeInv` | project/fuse/lib/fuse.c:842-879 | a new named node keeps the invariant |
| `TreeProtocol.ForgetInv` | project/fuse/lib/fuse.c:1287-1323 | giving up lookups keeps the invariant, the last ones only while the node is unlocked |
| `TreeProtocol.DotBeginInv` | project/fuse/lib/fuse.c:2646-2652 | a "." lookup's own reference keeps the counts exact |
| `TreeProtocol.DotEndInv` | project/fuse/lib/fuse.c:2676-2682 | dropping it, after its path was given back, leaves one reference owed |
| `TreeProtocol.CutInv` | project/fuse/lib/fuse.c:705-731 | the edge of a write-locked node can go: no held path leads through it |
| `TreeProtocol.UnlinkInv` | project/fuse/lib/fuse.c:1325-1343 | removing a name costs only the parent one reference, since the caller holds the parent's path |
| `TreeProtocol.RelinkInv` | project/fuse/lib/fuse.c:1345-1379 | renaming a write-locked node into a directory whose path is held creates no cycle and keeps the invariant |
| `TreeProtocol.GotInv` | project/fuse/lib/fuse.c:935-1015 | a path that was locked keeps the invariant with one more hold |
| `TreeProtocol.MarkInv` | project/fuse/lib/fuse.c:964-970 | a mark keeps the invariant |
| `TreeProtocol.UnlockInv` | project/fuse/lib/fuse.c:914-933 | giving a path back keeps the invariant with one hold less |
| `PathNames.PathLeads` | project/fuse/lib/fuse.c:955-1001 | the string built for a path, split at its slashes and followed from the root through the name table, leads to the node asked for, and then ends in the child's name if one was given; it has one slash before each name and none behind |
| `PathNames.HeldLeads` | project/fuse/lib/fuse.c:935-1015 | the string of every held path leads there still, whatever has happened since it was handed out |
| `PathNames.DirsLead` | project/fuse/lib/fuse.c:976-994 | the part built on the walk up leads to the node the walk started from |
| `LockQueue.ReplaceElem` | project/fuse/lib/fuse.c:1033-1087 | an element that changes its flags together with its holds keeps the queue consistent: flags say which paths are held, and a partially locked element is the head |
| `LockQueue.AppendElem` | project/fuse/lib/fuse.c:1113-1124 | a new request joins the queue holding nothing |
| `LockQueue.RemoveElem` | project/fuse/lib/fuse.c:1126-1133 | a request leaves the queue and the rest stays consistent |
| `LockQueue.ReleaseElems` | project/fuse/lib/fuse.c:788-808 | a cascade of deletions never takes away what a waiting request relies on |
| `LockQueue.AttemptMarks` | project/fuse/lib/fuse.c:962-974 | an attempt takes no mark away and makes one exactly if it fails with EAGAIN and the child it wants is locked by readers; a path that is taken has no marked node on it |
| `LockQueue.UnlockMarks` | project/fuse/lib/fuse.c:914-933 | giving a path back adds no mark and takes none from a node off the path |
| `LockQueue.TurnMarks` | project/fuse/lib/fuse.c:1033-1087 | after the turn of an element every mark has a waiting writer if and only if the mark it leaves behind, if any, has another one |
| `LockQueue.StillUnawaited` | project/fuse/lib/fuse.c:1033-1087 | a mark nobody waits for is not taken away by the turn of an element that holds nothing |
| `LockQueue.GoneFails` | project/fuse/lib/fuse.c:935-1015 | an attempt at a path from which a name is gone fails with ENOENT, never waits and changes nothing: below such a name nothing is locked |
| `LockQueue.FailsGone` | project/fuse/lib/fuse.c:976-981 | only such a path fails with ENOENT |
| `LockQueue.Granted` | project/fuse/lib/fuse.c:935-1015 | an attempt at a path succeeds if and only if no name is gone on the way to the root, nobody holds a write lock on a node of the way, none of these is marked for a waiting writer, and nobody's path or write lock involves the child wanted, if there is one |
| `LockQueue.NegativeLock` | project/fuse/lib/fuse.c:983-989 | a tree lock is negative exactly if somebody holds the write lock or a writer has marked the node |
| `LockQueue.NonzeroLock` | project/fuse/lib/fuse.c:965-972 | a tree lock is not zero exactly if some held path leads through the node or somebody holds its write lock |
| `LockQueue.GoneStays` | project/fuse/lib/fuse.c:705-786 | a path that is gone stays gone: names are taken away, and given only to nodes whose path is there |
| `LockQueue.FailuresStay` | project/fuse/lib/fuse.c:705-808 | a failed request stays one that wants a path that is gone, and a write-locked child with a name stays in a directory its writer holds, whatever loses its name or dies |
| `LockQueue.NewElemMarks` | project/fuse/lib/fuse.c:1148-1169 | a request that joins the queue waits for the mark its attempt made |
| `LockQueue.LeftMarks` | project/fuse/lib/fuse.c:1126-1133 | an element that is finished waits for no mark |
| `LockQueue.TreeMarks` | project/fuse/lib/fuse.c:705-786 | marked nodes keep their names, so waiters keep waiting for them, whatever else changes in the tree |
| `PathBuffer.Buffer.AddName` | project/fuse/lib/fuse.c:881-912 | the text in the buffer becomes "/" + name + text, every write inside the buffer; it fails, leaving the text, exactly if the buffer had to grow and could not |
| `PathBuffer.Buffer.Grow` | project/fuse/lib/fuse.c:885-904 | doubling makes room for the name, its slash and the text, which survives the shift |
| `PathBuffer.Buffer.Prepend` | project/fuse/lib/fuse.c:906-909 | name and slash go right in front of the text |
| `PathBuffer.Buffer.Finish` | project/fuse/lib/fuse.c:996-999 | the path is the text, or "/" if there is none, null-terminated inside the buffer |
| `FuseNodes.Fuse.constructor` | project/fuse/lib/fuse.c:4688-4718 | the state with the root alone satisfies every invariant, and both tables stand for it |
| `FuseNodes.Fuse.UnrefNode` | project/fuse/lib/fuse.c:802-808 | the recursive decrement and deletion is the cascade of the specification, and both hash tables stand for what it leaves, under their load bounds |
| `FuseNodes.Fuse.DeleteNode` | project/fuse/lib/fuse.c:788-800 | a node is deleted unlocked, the cascade goes on at its parent, and the id table follows |
| `FuseNodes.Fuse.UnhashName` | project/fuse/lib/fuse.c:705-731 | a name goes, and with it one reference on the parent |
| `FuseNodes.Fuse.UnhashLink` | project/fuse/lib/fuse.c:712-723 | the name leaves its chain, the cascade goes on at the parent, and only then is the name no longer counted; the name table stands for the names all along |
| `FuseNodes.LastGoes` | project/fuse/lib/fuse.c:788-808 | the last reference of a node takes it and its name away, and that is the cascade |
| `FuseNodes.Fuse.UnlockNodes` | project/fuse/lib/fuse.c:914-933 | exactly the nodes from the start up to the end node lose one reader and the child its write lock |
| `FuseNodes.Fuse.UnlockNode` | project/fuse/lib/fuse.c:924-931 | one node loses one reader, and its mark with the last one; the assertions hold |
| `FuseNodes.Fuse.TryGetPath` | project/fuse/lib/fuse.c:935-1015 | one path: locks, error and path string are those of the specification, for every path whose string with its terminator is shorter than 2^32; if the names on the way are names, the string followed from the root leads to the node and then names the child |
| `FuseNodes.Fuse.WalkUp` | project/fuse/lib/fuse.c:976-994 | the walk up either takes every node up to the root and builds the path, or leaves every tree lock as it was |
| `FuseNodes.Fuse.WalkStep` | project/fuse/lib/fuse.c:976-994 | one round takes one more reader and one more name, or fails for a missing name or a writer in the way |
| `FuseNodes.Fuse.UnlockSome` | project/fuse/lib/fuse.c:1007-1009 | a half-finished walk is undone exactly |
| `FuseNodes.Fuse.TrySlot` | project/fuse/lib/fuse.c:935-1015 | a request gets its path or fails atomically, and the invariant holds either way |
| `FuseNodes.AttemptGone` | project/fuse/lib/fuse.c:935-1015 | an attempt fails with ENOENT if and only if a name is gone on the way to the root |
| `FuseNodes.AttemptGranted` | project/fuse/lib/fuse.c:935-1015 | an attempt fails for good if a name is gone, waits if somebody else's locks or marks are in the way, and succeeds otherwise, an absent child being in nobody's way |
| `FuseNodes.PairGranted` | project/fuse/lib/fuse.c:1203-1222 | two paths are granted if and only if no name is gone, each is free, and neither wants to write-lock a child that the other needs |
| `FuseNodes.FreeAfter` | project/fuse/lib/fuse.c:1209-1213 | with the first path locked, the second is free exactly if it was before and the two do not clash |
| `FuseNodes.OutcomeIs` | project/fuse/lib/fuse.c:1033-1087 | a woken request fails if and only if a path of its is gone, and is served if and only if the paths it does not hold yet are free and do not clash, in terms of what others hold and whatever the order of the attempts |
| `FuseNodes.SecondAfterGrant` | project/fuse/lib/fuse.c:1046-1061 | what the second attempt comes to when the first has succeeded |
| `FuseNodes.SecondAfterRefusal` | project/fuse/lib/fuse.c:1046-1061 | a first attempt that has to wait does not hide that the second path is gone |
| `FuseNodes.HeadFirst` | project/fuse/lib/fuse.c:1089-1095 | a pass serves the head of the queue if its paths are free when the pass begins |
| `FuseNodes.HeadServed` | project/fuse/lib/fuse.c:1089-1095 | when nobody holds anything, the head of the queue does not wait any longer, unless its own two paths exclude each other |
| `FuseNodes.Settled` | project/fuse/lib/fuse.c:1046-1081 | trying the paths of a finished request again comes to the same answer: a failed one fails again, a served one has nothing left to try |
| `FuseNodes.Fuse.UnlockSlot` | project/fuse/lib/fuse.c:914-933 | a held path is given back |
| `FuseNodes.Fuse.QueueElementUnlock` | project/fuse/lib/fuse.c:1017-1031 | an element gives back the paths its flags say it holds |
| `FuseNodes.Fuse.RetryBoth` | project/fuse/lib/fuse.c:1046-1061 | both attempts of a waiting or finished request: errors as specified; the marks afterwards are the old ones it did not wait for, those it still waits for, and, if it fails, exactly the one `LeftMark` names; a finished request comes to the same answer |
| `FuseNodes.Fuse.WakePathElem` | project/fuse/lib/fuse.c:1033-1087 | a woken request is done with an error and no path as soon as one of its paths is gone, done with all its paths if they can be locked now, and otherwise waits on, partially locked only at the head of the queue; the mark it leaves is exactly `LeftMark`; a finished one keeps its answer and its holds |
| `FuseNodes.Fuse.QueueElementWakeup` | project/fuse/lib/fuse.c:1033-1087 | waking one element, finished or not, gives it exactly that outcome and keeps the whole invariant and everybody else's holds; if every mark had a waiting writer before, then every mark has one afterwards if and only if not `LeavesMark`: the request fails, a child it was waiting for or has just tried for is marked, and nobody else waits for that child; in terms of the holds before the turn, it fails exactly if a path of its is gone and is served exactly if the others are free (`Woken`) |
| `FuseNodes.MarksAfterTurn` | project/fuse/lib/fuse.c:1033-1087 | the same equivalence about the values: what the marks are after one turn |
| `FuseNodes.TriedBoth` | project/fuse/lib/fuse.c:1046-1061 | the marks after both attempts, whatever these come to |
| `FuseNodes.Fuse.WakeUpQueued` | project/fuse/lib/fuse.c:1089-1095 | the nodes and the queue after a whole pass are `Pass` of those before: every element has its turn, in order, each in the state the last one left, requests that are finished but not gone included; every mark still has a waiting writer afterwards if and only if `NoneLeavesMark` holds of the nodes and the queue before the pass; the head of the queue is served exactly if its paths are free when the pass begins |
| `FuseNodes.PassStep` | project/fuse/lib/fuse.c:1089-1095 | one more turn of a pass: its outcome, the nodes and the queue as specified, and the marks |
| `FuseNodes.TurnKeeps` | project/fuse/lib/fuse.c:1033-1087 | a turn keeps the queue consistent, failures final and the marks as specified |
| `FuseNodes.Fuse.FinishWait` | project/fuse/lib/fuse.c:1135-1146 | a request returning from its wait holds all its paths and is given their strings, which followed from the root lead to its nodes and children, or holds none if it failed |
| `FuseNodes.Fuse.GetPathCommon` | project/fuse/lib/fuse.c:1148-1169 | a request for one path fails, with nothing changed, exactly if a name is gone on the way; is granted, with a string that leads to its node and child, exactly if no lock or mark of others is in the way; and otherwise waits, with nothing changed but a mark |
| `FuseNodes.Fuse.QueueIfBusy` | project/fuse/lib/fuse.c:1154-1165 | a request that has to wait joins the queue, and the queue does not mind any other |
| `FuseNodes.Fuse.QueuePath` | project/fuse/lib/fuse.c:1113-1124 | a request whose attempt failed joins the end of the queue |
| `FuseNodes.Fuse.TryGetPath2` | project/fuse/lib/fuse.c:1203-1222 | both paths or neither, as the attempts at the first and then the second come out; a failure leaves every tree lock as it was but for one mark |
| `FuseNodes.Fuse.GiveBackFirst` | project/fuse/lib/fuse.c:1213-1219 | when the second path fails the first is given back |
| `FuseNodes.Fuse.GetPath2` | project/fuse/lib/fuse.c:1224-1255 | the same for a request for two paths: both are granted, with the right strings, exactly if none is gone, both are free and they do not clash |
| `FuseNodes.Fuse.FreePath` | project/fuse/lib/fuse.c:1257-1272 | the path is given back and the others get their turn, the first one with the path free; every mark still has a waiting writer if and only if `NoneLeavesMark` holds of the nodes with the path given back and the queue as it was; the head of the queue is served exactly if its paths are free with this one given back |
| `FuseNodes.Fuse.FreePath2` | project/fuse/lib/fuse.c:1274-1285 | both paths are given back and the others get their turn, with the same equivalences |
| `FuseNodes.Fuse.FindNode` | project/fuse/lib/fuse.c:842-879 | a known name yields its node with one more lookup, the first one being a reference too, its name and lock as before; an unknown one a new node in its directory with one lookup, under the id and generation next_id gives out for the live nodes, or nothing at all if the node or its name cannot be allocated; `nlookup` of every node stays the number of its lookups since it was made, less those forgotten; every node has a pair that was handed out, and both tables stand for the nodes and names |
| `FuseNodes.Fuse.FoundNode` | project/fuse/lib/fuse.c:875-875 | one more lookup of a node that is there is counted and keeps every invariant |
| `FuseNodes.Fuse.CountLookup` | project/fuse/lib/fuse.c:835-840 | the kernel has one lookup of the node more, and `nlookup` is its number of lookups still |
| `FuseNodes.Fuse.Enter` | project/fuse/lib/fuse.c:862-867 | the new node gets its name and enters both tables, or neither |
| `FuseNodes.Fuse.LookupNode` | project/fuse/lib/fuse.c:821-833 | the name table gives the answer of the map of names |
| `FuseNodes.Fuse.NewNode` | project/fuse/lib/fuse.c:851-872 | the new node is in the tree under its name with an id and generation never handed out before, or nothing has changed |
| `FuseNodes.Fuse.NewId` | project/fuse/lib/fuse.c:857-858 | the id is not that of a live node, and the pair was not handed out before the generation number wraps |
| `FuseNodes.Fuse.HashName` | project/fuse/lib/fuse.c:762-786 | the node has the name, its directory one reference more and the name table the name; without room for the name nothing changes |
| `FuseNodes.Fuse.ForgetNode` | project/fuse/lib/fuse.c:1287-1323 | a forget waits exactly when it gives up all lookups of a node that is locked; otherwise the kernel has that many lookups less, and unlocked nodes without references go; `nlookup` of every node stays the number of lookups not forgotten, so no node goes that the kernel still refers to |
| `FuseNodes.Fuse.ForgetResume` | project/fuse/lib/fuse.c:1299-1313 | a waiting forget looks again when woken, and forgets or waits as if it came now |
| `FuseNodes.Fuse.DropLookups` | project/fuse/lib/fuse.c:1315-1318 | giving up some lookups takes just these off the count; giving up the last one gives up one reference and whatever hangs on it |
| `FuseNodes.Fuse.DropSome` | project/fuse/lib/fuse.c:1315-1318 | a node that keeps lookups stays, with that many less |
| `FuseNodes.Fuse.DropLast` | project/fuse/lib/fuse.c:1315-1322 | with the last lookup goes one reference, and the cascade if it was the last |
| `FuseNodes.Fuse.CountForget` | project/fuse/lib/fuse.c:1315-1315 | `nlookup` follows the kernel's number of lookups |
| `FuseNodes.ForgetAll` | project/fuse/lib/fuse.c:1287-1323 | a forget leaves the invariants in place, or one reference owed if it took the last lookup |
| `FuseNodes.Fuse.DropReference` | project/fuse/lib/fuse.c:802-808 | unref_node at the top of the call stack keeps every invariant |
| `FuseNodes.ReleaseAll` | project/fuse/lib/fuse.c:705-808 | a cascade of deletions leaves the tree, the locks, the queue, the finality of failures and the waiters of marks in place |
| `FuseNodes.Fuse.LookupDotBegin` | project/fuse/lib/fuse.c:2646-2652 | a "." lookup takes a reference on a node that is known, and only then |
| `FuseNodes.Fuse.LookupDotEnd` | project/fuse/lib/fuse.c:2676-2682 | it gives the reference back |
| `FuseNodes.Fuse.UnlinkNode` | project/fuse/lib/fuse.c:1325-1332 | the node loses its name and nothing else changes but the parent's count |
| `FuseNodes.UnlinkAll` | project/fuse/lib/fuse.c:1325-1332 | taking a name away under its write lock leaves all of these in place, and only the name and counts change |
| `FuseNodes.Fuse.RemoveNode` | project/fuse/lib/fuse.c:1334-1343 | the name is gone, no other link changes, no node dies |
| `FuseNodes.Fuse.RenameNode` | project/fuse/lib/fuse.c:1345-1379 | the node has the new name, the old name is gone, a node replaced is nameless; a hiding rename onto an existing name is refused with nothing changed; without room for the new name the node loses its name and ENOMEM is returned; a rename after the target has been hidden by the same request is included |
| `FuseNodes.Fuse.Supplant` | project/fuse/lib/fuse.c:1364-1371 | what bears the new name loses it and the node takes it, or has none if the name cannot be allocated |
| `FuseNodes.Fuse.ClearName` | project/fuse/lib/fuse.c:1358-1365 | what is in the way loses its name |
| `FuseNodes.RenameSteps` | project/fuse/lib/fuse.c:1352-1371 | taking one name away and moving the other is the rename as a whole |
| `FuseNodes.MovedFinal` | project/fuse/lib/fuse.c:1367-1371 | a node that moves from one held path to another revives no request that has failed |
| `FuseNodes.Fuse.MoveNode` | project/fuse/lib/fuse.c:1367-1371 | the node moves from its old name to a free new one, or has none if the new one cannot be allocated |
| `LostMark.MarkOutlivesWaiter` | project/fuse/lib/fuse.c:1046-1087 | a run of find_node, get_path, get_path2, remove_node and free_path from the start, after which a mark has no waiting writer although every other invariant holds |
| `LostMark.WillLeave` | project/fuse/lib/fuse.c:1046-1061 | in the state this run reaches before its last wake-up the waiting rename meets `LeavesMark` |
| `FuseNodes.NotMarked` | project/fuse/lib/fuse.c:935-1015 | an attempt that fails without contention leaves every tree lock exactly as it was |
| `DirStream.DirHandle.ExtendContents` | project/fuse/lib/fuse.c:3369-3392 | the buffer has room for what was asked, and its contents survive the move; it fails exactly if it had to grow and could not |
| `DirStream.DirHandle.FillDir` | project/fuse/lib/fuse.c:3394-3442 | an entry is added whole, with the position of the next one as its off, or not at all, in both modes; where the 32-bit length wraps the entry is lost, the text is cut to the wrapped length and no error is reported |
| `DirStream.DirHandle.AddCounted` | project/fuse/lib/fuse.c:3431-3440 | the branch for offset zero |
| `DirStream.DirHandle.ReaddirFill` | project/fuse/lib/fuse.c:3444-3474 | after filling, the buffer is the encoding of the whole listing if and only if that is shorter than 2^32 bytes, or of as many entries of a paging file system as fit the request; it counts as filled in the first case only, or when there was nothing to list |
| `DirStream.DirHandle.PassWhole` | project/fuse/lib/fuse.c:3431-3441 | the length is that of the encoded listing modulo 2^32, and the text is the encoding if and only if that is below 2^32 |
| `DirStream.ListedNext` | project/fuse/lib/fuse.c:3431-3441 | the same for the listing so far and one more entry |
| `DirStream.ListedAll` | project/fuse/lib/fuse.c:3431-3441 | a text of the wrapped length is the encoded listing exactly if nothing wrapped |
| `DirStream.DirHandle.PassPage` | project/fuse/lib/fuse.c:3420-3430 | entries passed with offsets of their own are encoded until one does not fit |
| `DirStream.DirHandle.Readdir` | project/fuse/lib/fuse.c:3476-3509 | a page is the cut of the stream at the asked position, or the whole buffer when the file system pages; position zero and an unfilled buffer read the directory again; a page of a paging file system is the right one if and only if the position is zero, the buffer was not filled, nothing is left there or nothing fits |
| `DirStream.DirHandle.AddDirent` | project/fuse/lib/fuse_lowlevel.c:249-279 | an entry is written behind the others in the wire format |
| `DirStream.DirHandle.Cut` | project/fuse/lib/fuse.c:3496-3505 | the reply is what is left from the position on, at most a page |
| `DirStream.ReadWhole` | project/fuse/lib/fuse.c:3369-3509 | a reader that decodes whole entries and resumes at the last off sees every name exactly once, in order, for any sequence of page sizes none smaller than an entry; the loop ends |
| `DirStream.ReadPaged` | project/fuse/lib/fuse.c:3369-3509 | the same for a file system that pages by itself with distinct offsets of its own choice |
| `DirStream.SeekBack` | project/fuse/lib/fuse.c:3476-3509 | a reader that has read such a directory to its end and goes back to the position behind an entry gets an empty page, which is not the right one |
| `DirStream.PagedReply` | project/fuse/lib/fuse.c:3394-3442 | a page of such a file system decodes to whole entries, at least one of those left |
| `DirStream.DecodeItems` | project/fuse/lib/fuse_lowlevel.c:249-267 | decoding what was encoded with any offsets gives the entries with these offsets |
| `DirStream.PageAt` | project/fuse/lib/fuse.c:3476-3509 | a page that starts at an entry holds at least one whole entry unless the listing is at its end |
| `DirStream.DecodeCut` | project/fuse/lib/fuse_lowlevel.c:249-267 | decoding any cut of the stream yields exactly the entries wholly in it |
| `DirStream.LastOff` | project/fuse/lib/fuse_lowlevel.c:249-267 | the last entry's off is the position of the next entry |
| `DirStream.LeRoundTrip` | project/fuse/lib/fuse_lowlevel.c:249-267 | a number below the width survives encoding and decoding |
| `DirStream.DirentSize` | project/fuse/lib/fuse_lowlevel.c:244-247 | an entry's size holds header and name and is a multiple of eight |
| `DirStream.TypeOf` | project/fuse/lib/fuse_lowlevel.c:261-261 | the type is the four bits of the mode above the low twelve |
| `Slabs.Allocator.AllocNode` | project/fuse/lib/fuse.c:423-444 | the node was not in use, is in a mapped page (the new one if no page had room), all invariants hold, and it fails exactly if a page was needed and could not be had |
| `Slabs.Allocator.ClearNode` | project/fuse/lib/fuse.c:441-441 | clearing a node disturbs no list |
| `Slabs.Allocator.AllocSlab` | project/fuse/lib/fuse.c:391-421 | a new page is cut into cells, all free, and joins the list of pages with room |
| `Slabs.Allocator.CutPage` | project/fuse/lib/fuse.c:407-417 | the loop threads every cell of the page into its free list |
| `Slabs.Allocator.TakeCell` | project/fuse/lib/fuse.c:433-436 | the first free cell of a page is taken and counted |
| `Slabs.Allocator.ToFulls` | project/fuse/lib/fuse.c:437-440 | a page without a free cell moves to the list of full pages |
| `Slabs.Allocator.FreeNodeMem` | project/fuse/lib/fuse.c:456-471 | the node is no longer in use, and its page is unmapped exactly if no other node is in use there |
| `Slabs.Allocator.GiveCell` | project/fuse/lib/fuse.c:461-467 | the cell goes back to its page's free list, and a full page back to the list of pages with room |
| `Slabs.Allocator.ToPartials` | project/fuse/lib/fuse.c:463-466 | a full page moves to the list of pages with room |
| `Slabs.Allocator.FreeSlab` | project/fuse/lib/fuse.c:446-454 | a page leaves whichever list it is on and is unmapped |
| `Slabs.Allocator.ListAdd` | project/fuse/lib/fuse.c:334-341 | the four pointer writes link the entry between its neighbours |
| `Slabs.Allocator.ListAddHead` | project/fuse/lib/fuse.c:343-346 | the entry is first on the circular list, which stays linked both ways, and no other word changes |
| `Slabs.Allocator.ListAddTail` | project/fuse/lib/fuse.c:348-351 | the entry is last on the circular list |
| `Slabs.Allocator.ListDel` | project/fuse/lib/fuse.c:353-360 | the entry is gone from the circular list |
| `Slabs.RingInsert` | project/fuse/lib/fuse.c:334-341 | list_add keeps a list circular in both directions with the entry in its place |
| `Slabs.RingRemove` | project/fuse/lib/fuse.c:353-360 | list_del keeps a list circular in both directions without the entry |
| `Slabs.NodesApart` | project/fuse/lib/fuse.c:409-417 | nodes never overlap |
| `Slabs.CellInPage` | project/fuse/lib/fuse.c:409-417 | a cell lies behind the page's header and inside the page |
| `Slabs.NoRoomForMore` | project/fuse/lib/fuse.c:400-420 | a page is cut into as many cells as fit behind its header |
| `Slabs.MaskFindsSlab` | project/fuse/lib/fuse.c:386-389 | masking the address of a node finds its page |
| `Slabs.MaskIsSlab` | project/fuse/lib/fuse.c:386-389 | for a page size that is a power of two, node & ~(pagesize - 1) over 64 bits is the address less its remainder |
| `Slabs.MaskClears` | project/fuse/lib/fuse.c:386-389 | bitwise and with the complement of 2^k - 1 clears the k low bits |
| `Slabs.FirstTaken` | project/fuse/lib/fuse.c:433-436 | the first free cell of a page was not in use, and with it taken the page's lists and counts are right |
| `Slabs.UseCount` | project/fuse/lib/fuse.c:456-471 | a page's use count is the number of its nodes in use |
| `Slabs.AllFreed` | project/fuse/lib/fuse.c:4789-4790 | both lists of pages are empty exactly when no node is in use |
| `Slabs.NodeWritten` | project/fuse/lib/fuse.c:441-443 | whatever is written into a node in use, no list notices |
| `Slabs.PageRemoved` | project/fuse/lib/fuse.c:446-454 | unmapping a page disturbs no other page |
| `Interrupts.LowLevel.constructor` | project/fuse/lib/fuse_lowlevel.c:97-101 | no request, no interrupt and no lock held: the invariants hold, and the request locks are safe |
| `Interrupts.LowLevel.Arrive` | project/fuse/lib/fuse_lowlevel.c:2403-2411 | a request is interrupted from the start exactly if an interrupt for it is parked, which is then used up; parked interrupts and live requests never share an id |
| `Interrupts.LowLevel.CheckInterrupt` | project/fuse/lib/fuse_lowlevel.c:1625-1645 | the parked interrupt about this request is destroyed, or the oldest parked one is taken off to be answered |
| `Interrupts.LowLevel.AnswerPopped` | project/fuse/lib/fuse_lowlevel.c:126-139 | an interrupt taken off is answered and destroyed once |
| `Interrupts.LowLevel.Interrupt` | project/fuse/lib/fuse_lowlevel.c:1566-1623 | an interrupt finds its request on the list, or is a duplicate and destroyed, or is parked |
| `Interrupts.LowLevel.FindLive` | project/fuse/lib/fuse_lowlevel.c:1570-1571 | the request the interrupt is about, if it is on the list |
| `Interrupts.LowLevel.FindParked` | project/fuse/lib/fuse_lowlevel.c:1597-1601 | a parked interrupt about the same request, if there is one |
| `Interrupts.LowLevel.Reference` | project/fuse/lib/fuse_lowlevel.c:1575-1576 | the request found gets a reference for the delivery |
| `Interrupts.LowLevel.Park` | project/fuse/lib/fuse_lowlevel.c:1617-1622 | an interrupt about no known request is parked |
| `Interrupts.LowLevel.HandlerMark` | project/fuse/lib/fuse_lowlevel.c:1578-1584 | the request is marked, under its own lock, and its callback fetched |
| `Interrupts.LowLevel.HandlerCall` | project/fuse/lib/fuse_lowlevel.c:1585-1587 | the fetched callback is called before the request's lock is given up |
| `Interrupts.LowLevel.HandlerDone` | project/fuse/lib/fuse_lowlevel.c:1589-1592 | the reference is dropped, and the request destroyed exactly if it was the last; its lock is then held, and destroyed with it, exactly if a callback is being registered meanwhile |
| `Interrupts.LowLevel.DropReference` | project/fuse/lib/fuse_lowlevel.c:1589-1590 | the interrupt goes, and with it its reference |
| `Interrupts.LowLevel.Register` | project/fuse/lib/fuse_lowlevel.c:2220-2227 | a callback is registered under the request's lock, and whether it is called at once is settled |
| `Interrupts.LowLevel.RegisterCall` | project/fuse/lib/fuse_lowlevel.c:2228-2230 | an interrupt that came first has been delivered when the lock is given up; the request still exists unless the lock was destroyed |
| `Interrupts.LowLevel.FreeReq` | project/fuse/lib/fuse_lowlevel.c:126-137 | the request leaves the list for good, and only the last reference destroys it: exactly when no interrupt is being delivered to it; the last reference goes under a lock that is held exactly if the request is answered while a callback is being registered and no interrupt is being delivered |
| `Interrupts.LowLevel.ListDelReq` | project/fuse/lib/fuse_lowlevel.c:103-109 | the request leaves the list of live ones |
| `Interrupts.LowLevel.DestroyReq` | project/fuse/lib/fuse_lowlevel.c:137-138 | a request is destroyed once, off the list and with no interrupt being delivered to it; its lock is free unless it was answered while a callback was being registered |
| `Interrupts.ArriveKeeps` | project/fuse/lib/fuse_lowlevel.c:2403-2411 | a new request keeps counts exact, locks consistent, and every registered callback of an interrupted, unlocked request called |
| `Interrupts.FoundKeeps` | project/fuse/lib/fuse_lowlevel.c:1570-1576 | an interrupt that found its request keeps counts exact, locks consistent, and every registered callback of an interrupted, unlocked request called |
| `Interrupts.MarkKeeps` | project/fuse/lib/fuse_lowlevel.c:1578-1584 | marking a request keeps counts exact, locks consistent, and every registered callback of an interrupted, unlocked request called |
| `Interrupts.CallKeeps` | project/fuse/lib/fuse_lowlevel.c:1585-1587 | calling back keeps counts exact, locks consistent, and every registered callback of an interrupted, unlocked request called |
| `Interrupts.DoneKeeps` | project/fuse/lib/fuse_lowlevel.c:1589-1592 | the end of a delivery keeps counts exact, locks consistent, and every registered callback of an interrupted, unlocked request called |
| `Interrupts.RegisterKeeps` | project/fuse/lib/fuse_lowlevel.c:2220-2227 | registering a callback keeps counts exact, locks consistent, and every registered callback of an interrupted, unlocked request called |
| `Interrupts.RegisteredKeeps` | project/fuse/lib/fuse_lowlevel.c:2228-2230 | the late delivery keeps counts exact, locks consistent, and every registered callback of an interrupted, unlocked request called |
| `Interrupts.FreeKeeps` | project/fuse/lib/fuse_lowlevel.c:126-137 | freeing a request keeps counts exact, locks consistent, and every registered callback of an interrupted, unlocked request called |
| `Interrupts.UnreferencedGoes` | project/fuse/lib/fuse_lowlevel.c:137-138 | a request without references is off the list and no interrupt is being delivered to it; its lock is free or held to register a callback |
| `Interrupts.PoliteIsSafe` | project/fuse/lib/fuse_lowlevel.c:1589-1592 | as long as no request is answered while its lock is held to register a callback, no lock is ever destroyed while it is held |
| `Interrupts.RepliesAtOnce` | project/fuse/lib/fuse_lowlevel.c:2220-2231 | from every state with a parked interrupt, its request may register a callback that answers at once, and the lock is destroyed while it is held |
| `Interrupts.ReplyInCallback` | project/fuse/lib/fuse_lowlevel.c:2220-2231 | the same as a run from the start |
| `Interrupts.DeliveryEndsFirst` | project/fuse/lib/fuse_lowlevel.c:1589-1592 | a run from the start in which the end of a delivery destroys the lock that is held to register a callback |
| `Interrupts.ParkedTaken` | project/fuse/lib/fuse_lowlevel.c:1629-1642 | taking an interrupt off the parked ones leaves every object in one place |
| `OptionGroups.AddOptCommon` | project/fuse/lib/fuse_opt.c:117-139 | the group is extended by a comma and the option, escaped if asked, within oldlen + 2 * len + 2 bytes |
| `OptionGroups.AddedRead` | project/fuse/lib/fuse_opt.c:141-149 | behind the options that are there, an option added with escapes is read as that one option and a text added without as the options it spells |
| `OptionGroups.WriteOpt` | project/fuse/lib/fuse_opt.c:131-136 | at most two bytes per character are written |
| `OptionGroups.GroupRoundTrip` | project/fuse/lib/fuse_opt.c:294-332 | reading back a group built by escaped adds gives the options that were kept; it gives exactly the added ones if and only if there is one option or the first is not empty |
| `OptionGroups.ReadJoin` | project/fuse/lib/fuse_opt.c:294-332 | reading options joined with escapes gives back the options |
| `OptionGroups.OctalRoundTrip` | project/fuse/lib/fuse_opt.c:312-322 | a backslash and the three octal digits of a byte are read as that byte |
| `OptionGroups.AddAllIsJoin` | project/fuse/lib/fuse_opt.c:117-139 | adding options one after the other joins them with commas, an empty start being lost |
| `OptionGroups.GroupStable` | project/fuse/lib/fuse_opt.c:294-332 | reading a built group and building it again gives the same group |
| `OptionGroups.EscapeBounds` | project/fuse/lib/fuse_opt.c:131-135 | escaping at most doubles a text |
| `ArgParser.Context.ProcessRealOptionGroup` | project/fuse/lib/fuse_opt.c:294-332 | the reader that works in place collects exactly the options of the split-and-unescape function, octal escapes included |
| `ArgParser.Context.ReadChar` | project/fuse/lib/fuse_opt.c:312-328 | the write cursor never passes the read cursor, and one round is one step of the function |
| `ArgParser.Context.ProcessOptionGroup` | project/fuse/lib/fuse_opt.c:334-346 | the group is copied and read |
| `ArgParser.Context.ProcessOne` | project/fuse/lib/fuse_opt.c:348-369 | one argument is one step of the specification: a group adds its options behind those collected, any other argument is passed on, a first "--" ends the options; it fails exactly if the text of the last -o is missing |
| `ArgParser.Context.OptParse` | project/fuse/lib/fuse_opt.c:371-396 | the parse fails exactly if a -o lacks its text; otherwise the result is the program, then one group in front that reads as the options of all groups before the first "--" in order (empty ones at the start are lost), then every other argument in order, a "--" being removed exactly if nothing follows it and there was no group; without groups there is none in front |
| `ArgParser.ParseSays` | project/fuse/lib/fuse_opt.c:371-396 | the same of the specification, for every way to spell the items of a command line |
| `ArgParser.RunItems` | project/fuse/lib/fuse_opt.c:348-369 | the loop passes on what is no group and collects the options of the groups behind those it has |
| `ArgParser.SaysSomething` | project/fuse/lib/fuse_opt.c:348-369 | every command line either is such a sequence of items or lacks the text of its last group, and never both |
| `ArgParser.ReadItems` | project/fuse/lib/fuse_opt.c:348-369 | the items of a command line can be read off it |
| `ArgParser.Context.InsertArg` | project/fuse/lib/fuse_opt.c:74-88 | the argument is at its position and the others keep their order |
| `ArgParser.ParseIdempotent` | project/fuse/lib/fuse_opt.c:398-423 | without templates and callback, parsing the result of a successful parse gives the same arguments |
| `ArgParser.Replay` | project/fuse/lib/fuse_opt.c:348-369 | parsing the output of a run again goes through the same states |
| `Symlinks.TransformSymlink` | project/fuse/lib/modules/subdir.c:116-151 | for a path without "." or "..", the new link resolved from the link's directory gives the same components as the old one; a link below the base that fits becomes relative; every write stays within size and the text null-terminated; a link is left as it is unless it and the base are absolute and at least as much text as the base has can be cut off it in components shared with the path, and then what is left stands behind one "../" for each further directory of the path |
| `Symlinks.StripCommon` | project/fuse/lib/modules/subdir.c:103-114 | what is skipped is the same components on both sides |
| `Symlinks.CountComponents` | project/fuse/lib/modules/subdir.c:91-101 | the number of components |
| `Symlinks.SameTarget` | project/fuse/lib/modules/subdir.c:103-151 | going up as many directories as the path has left and then down the rest of the link leads to the link's target |
| `Symlinks.Rewrite` | project/fuse/lib/modules/subdir.c:141-150 | the text becomes as many "../" as asked and what is left of the link |
| `Symlinks.MoveTail` | project/fuse/lib/modules/subdir.c:141-147 | what is left of the link moves to its place, with the terminator |
| `Symlinks.WriteUps` | project/fuse/lib/modules/subdir.c:149-150 | the "../" are written and nothing behind them |
| `Symlinks.FollowUps` | project/fuse/lib/modules/subdir.c:103-151 | going up as often as one went down leads back |
| `BufCopy.System.Copy` | project/fuse/lib/buffer.c:278-318 | what was delivered is a prefix of the source, in order, and nothing else changed, for vectors that share no place, even in one file as long as the bytes to be read are in it from the start; all-memory vectors copy the smaller of what is left of both; the source cursor advances by the result and the destination's too unless the source ran out; if no kernel call did less than it was asked, the result is the smaller of what was left of both vectors, and if all descriptors are to be retried that holds if only no call that was asked for something did nothing |
| `BufCopy.System.CopyRounds` | project/fuse/lib/buffer.c:286-317 | the loop ends for every vector, zero-length buffers included, and if nothing was cut short it ends at the end of one of them |
| `BufCopy.System.Round` | project/fuse/lib/buffer.c:287-315 | a round keeps both cursors in front of what was not copied yet, and another one follows unless something was cut short or a vector is at its end |
| `BufCopy.System.CopyOne` | project/fuse/lib/buffer.c:224-252 | a copy between two buffers moves a prefix, all of it between memory buffers, and all of it unless a kernel call did less than it was asked, or with retries did nothing |
| `BufCopy.System.FdToFd` | project/fuse/lib/buffer.c:107-155 | through the 4096 byte buffer, with any short read or write, what arrives is a prefix of what was to be copied; it is all of it unless some call did less than it was asked or, with retries on both sides, did nothing |
| `BufCopy.System.BufWrite` | project/fuse/lib/buffer.c:39-71 | what reached the file is a prefix of the memory, at the right position; it is all of it unless a call wrote less than it was asked or, with retries, nothing |
| `BufCopy.System.BufRead` | project/fuse/lib/buffer.c:73-105 | what reached memory is a prefix of the file from the right position; it is all of it unless a call read less than it was asked or, with retries, nothing |
| `BufCopy.System.MoveMemory` | project/fuse/lib/buffer.c:230-242 | memory is copied as if all at once, overlapping or not |
| `BufCopy.Vec.Advance` | project/fuse/lib/buffer.c:262-276 | the cursor passes len bytes, going to the next buffer when one is used up |
| `BufCopy.Vec.TotalSize` | project/fuse/lib/buffer.c:19-32 | the sum of the sizes |
| `BufCopy.FlatCopied` | project/fuse/lib/buffer.c:278-318 | on memory vectors the copy is the copy of a prefix of one byte string over another, which otherwise keeps its bytes |
| `BufCopy.FlatKept` | project/fuse/lib/buffer.c:278-318 | a copy between memory vectors that share no byte leaves the bytes of the source |
| `BufCopy.MovesTwice` | project/fuse/lib/buffer.c:278-318 | copies one after the other copy the concatenation |
| `BufCopy.RoundDone` | project/fuse/lib/buffer.c:120-152 | one more round between descriptors goes on exactly where the last one stopped |
| `BufCopy.SeparateLater` | project/fuse/lib/buffer.c:278-318 | places that are apart stay apart while bytes are moved |
| `BufCopy.NotUsed` | project/fuse/lib/buffer.c:107-155 | two vectors that share no place never move the same descriptor's own offset |
| `BufCopy.CursorMoves` | project/fuse/lib/buffer.c:262-276 | a cursor stands before the places not passed yet, whatever the other side does to its descriptor |

## Left out

- FuseNodes.Fuse.TryGetPath: the branches for a failing allocation of the path buffer (-ENOMEM) are not
  modelled; `PathBuffer.Buffer.AddName` covers the failing growth itself. With them a waiting request may fail
  although its paths are there, and nothing is claimed then about its being woken once more.
- FuseNodes.Fuse.FindNode: the re-entry of remembered nodes into the least-recently-used list is not modelled.
- FuseNodes.Fuse.TrySlot: on the way through `try_get_path` nodes and names are looked up in the maps, which
  `TablesOk` equates with the hash tables.
- FuseNodes.Fuse.ForgetResume: that every waiting request is served in the end is not shown; the library itself
  says that locking two paths lacks deadlock checking. What is shown is when a turn serves a request, and that
  the head of the queue is served at the latest when nobody holds anything (`HeadServed`).
- FuseNodes.Fuse.QueueElementWakeup: a forget's element is only signalled; the condition variable itself is
  not modelled, a woken request may run at any later time.
- FuseNodes.Fuse.LookupDotBegin: ".." lookups, which read the parent of a node directly, are not modelled.
- FuseNodes.Fuse.RenameNode: the choice of a hidden name, `is_hidden` and `open_count` are not modelled; a
  hiding rename is modelled as far as it renames.
- BufCopy.System.Copy: vectors that overlap, or that read a file they write beyond its end, keep only the
  bounds on the result and the cursors; splicing (compiled out), SIZE_MAX sizes and wrap-around of size_t are not
  modelled.
- RecordLocks.LockList.GetLk: the process id in the reply is copied but has no meaning in the model.
- Slabs.Allocator.FreeSlab: a failing munmap, which only prints a warning, is not modelled.
- DirStream.DirHandle.FillDir: file systems that mix zero and non-zero offsets in one listing are outside the
  paging theorem; numbers on the wire are little-endian.
- ArgParser.Context.OptParse: templates and callbacks of `fuse_opt` are not modelled; every option is kept.
- Interrupts.LowLevel.Interrupt: signals to the thread that serves a request are outside the library part
  modelled here.
- NodeIds.IdGenerator.NextId: after 2^64 steps the generation number wraps and pairs repeat.
- The node lists of `RecordLocks`, `Interrupts`, `NodeTables` and `LockQueue` are sequences that methods
  reassign; only `Slabs` models the pointers of its lists.
- The remember mode with its least-recently-used list and its thread, the `nopath` mode, cached attributes and
  timeouts.
- Mounting, signals, sessions, channels, the worker pool, the per-operation decoders and dispatchers, and the
  compatibility layers: one branch each.
- The character-set module and the lock manager client, which talk to code outside the repository.
- The Android application around the library.
