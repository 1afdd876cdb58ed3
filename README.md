# TecnicoFS in Dafny

TecnicoFS is a small file system built in three stages.

- **ex1**: a single name tree. Commands are read from a file into a fixed queue (`insertCommand`, `processInput`). They are then applied in order (`applyCommands`). Each `c` (create) takes the next inumber, `l` (lookup) reports the inumber or "not found", and `d` deletes.
- **ex2**: the tree is split into hash buckets, each with its own lock. The command queue becomes a bounded ring buffer shared by one producer (`processInput`) and several consumer threads (`applyCommands`). Each consumer stops at the sentinel command `"f"`. `renameNode` takes both bucket locks with a try-lock retry loop.
- **ex3**: TecnicoFS is a server. A client library (`tfsCreate`, `tfsOpen`, `tfsWrite`, …) formats one-line requests. Each connection thread of the server scans a request with `sscanf("%c %s %s")`, checks ownership and permissions against the inode, keeps a per-connection table of five open files, and sends back a numeric reply or the file contents. The session ends at the request `"f"`.

The model follows the program's own structure, one module per source file.

| module | file | models |
|---|---|---|
| `Common` | `common.dfy` | `Option`, `Min` |
| `CLib` | `clib.dfy` | the C library behaviour the core relies on, stated as functions: `strlen` (up to the first NUL), `snprintf` truncation, `%d` printing, `atoi`, and the word scanning of `sscanf("%c %s %s")` with its return count |
| `Namespace` | `namespace.dfy` | the name buckets as maps from name to inumber, and what binding, unbinding and moving a name do to name resolution |
| `Locks` | `locks.dfy` | the per-bucket locks as the set of held buckets. The retry loop of `renameNode` is driven by a sequence of try-lock outcomes. |
| `Inodes` | `inodes.dfy` | the inode table (`lib/inodes.c` is not part of this model). Its operations are stated as functions over a map. Which calls fail is an input, and so is which fresh inumber `inode_create` picks. |
| `Ex1Fs`, `Ex1Main` | `ex1_fs.dfy`, `ex1_main.dfy` | `TecnicoFs` (ex1/fs.c) and the command queue, input reading and command application (ex1/main.c) |
| `Ex2Fs`, `Ex2Main` | `ex2_fs.dfy`, `ex2_main.dfy` | the bucketed `TecnicoFs` with `renameNode` (ex2/fs.c), the ring buffer, the producer, and the consumers run one after another (ex2/main.c) |
| `Ex3Fs` | `ex3_fs.dfy` | the server's `TecnicoFs` (ex3/Server/fs.c) |
| `Ex3Protocol` | `ex3_protocol.dfy` | one connection of the server as a pure function: `Step` takes the session (open-file table, stale `sscanf` outputs, stale inode metadata) and the shared world (buckets, inodes) to the next ones and a reply. `Serve` runs a whole session. |
| `Ex3Server` | `ex3_server.dfy` | class `Connection`, the imperative connection thread over its `file_table` array. Every handler is proved equal to the matching `Ex3Protocol` case, and `Serve` is proved equal to `Ex3Protocol.Serve`. |
| `Ex3Client` | `ex3_client.dfy` | the client API: argument checks, the request each call formats, and how the reply is decoded. Round-trip lemmas show that the server's scan recovers what the client sent. |

Inputs that come from outside the modelled code are parameters:

- the lines of the input file;
- the hash function, constrained only to map into the bucket range;
- the outcome of each try-lock round;
- which inode operations fail, and the inumber `inode_create` returns;
- the caller's uid;
- the requests a connection receives.

Behaviour the C code leaves undefined is an explicit `Undefined` outcome, or is excluded by a precondition where the source relies on its callers. Examples are indexing `file_table` with an out-of-range descriptor, or writing a command that is too short.

## Model

| member | source | states |
|---|---|---|
| CLib.CStr | ex3/Server/main.c:299-304 | the string C functions see is the longest NUL-free prefix, ending just before the first NUL |
| CLib.Bounded | ex3/Client/tecnicofs-client-api.c:45 | `snprintf` with size n keeps exactly the first min(length, n-1) characters of the formatted text |
| CLib.ScanLine | ex2/main.c:105 | `sscanf("%c %s %s")` returns -1 exactly when the line is empty; otherwise the token is the line's first character, the count is one more than the words read, and at most n words are read |
| CLib.NatToStringDigits | ex3/Server/main.c:252 | `%d` of a natural number prints at least one character, all digits, whose decimal value is the number |
| CLib.AtoiItoa | ex3/Client/tecnicofs-client-api.c:55 | `atoi` reads back every integer that `%d` printed |
| CLib.ItoaSmall | ex3/Server/main.c:175 | reply codes from -11 to 9 print as one digit, or as a minus sign and digits, in at most three characters |
| CLib.ScanOneWord | ex1/main.c:108 | scanning "c name" gives two items, the token and the name |
| CLib.ScanTwoWords | ex2/main.c:105 | scanning "r old new" gives three items, the token and both names |
| CLib.Atoi | ex3/Client/tecnicofs-client-api.c:55 | `atoi`: white space, an optional sign, the longest run of digits, 0 without digits; `AtoiItoa` states that it reads back what `Itoa` prints |
| CLib.Itoa | ex3/Server/main.c:252 | `%d`: a minus sign for a negative number, then its digits; `NatToStringDigits`, `ItoaSmall` and `AtoiItoa` state its properties |
| CLib.Words | ex2/main.c:105 | the white-space separated words `%s` conversions read, in order; `ScanOneWord` and `ScanTwoWords` state what a command scans to |
| Namespace.Empty | ex2/fs.c:76-77 | a new file system has numberBuckets buckets, all empty |
| Namespace.PlacedUnique | ex2/fs.c:135-145 | when every name sits in the bucket of its hash, no name is in two buckets |
| Namespace.BindInHome | ex2/fs.c:115-123 | inserting a name into its home bucket keeps every name in its home bucket, makes the name resolve to its inumber, and changes the resolution of no other name |
| Namespace.UnbindInHome | ex2/fs.c:125-133 | removing a name from its home bucket keeps placement, makes the name resolve to nothing, and changes no other name |
| Namespace.MoveInHome | ex2/fs.c:216-217 | the remove-then-insert of a rename keeps placement; the new name resolves to the old inumber, the old name to nothing, and every other name as before |
| Locks.RoundSucceeds | ex3/Server/fs.c:100-124 | if some round finds both bucket locks free, the retry loop ends for any pair of buckets |
| Locks.BucketLocks.Lock | ex3/Server/fs.c:61 | taking a free bucket lock adds it to the held set |
| Locks.BucketLocks.TryWriteLock | ex3/Server/fs.c:102-104 | a try-lock succeeds exactly when the lock is free and not already held; only then is it added |
| Locks.BucketLocks.Unlock | ex3/Server/fs.c:64 | releasing a held lock removes it from the held set |
| Locks.BucketLocks.AcquireForRename | ex3/Server/fs.c:97-124 | the retry loop ends holding exactly the old and new buckets (one lock when they coincide); it stops at the first round whose first try-lock succeeds and whose second succeeds or names the same bucket, after failed rounds only |
| Locks.BucketLocks.ReleaseForRename | ex3/Server/fs.c:127-132 | both rename locks are released (the second only when it is a different bucket) and none is left held |
| Inodes.Create | ex3/Server/main.c:128 | `inode_create` returns -1 exactly when it fails, and then changes nothing; otherwise it returns an inumber not in use, bound to an empty inode with the given owner and permissions |
| Inodes.InodeTable.constructor | ex3/Server/main.c:128 | the inode table starts empty |
| Inodes.InodeTable.InodeCreate | ex3/Server/main.c:128 | the returned inumber and new table are those of `Create` |
| Inodes.InodeTable.InodeGet | ex3/Server/main.c:146 | `inode_get` yields the inode, or nothing when it fails or the inumber is unused |
| Inodes.InodeTable.InodeDelete | ex3/Server/main.c:156 | `inode_delete` returns -1 exactly when deletion fails, and then leaves the table unchanged; otherwise the inode is removed |
| Inodes.InodeTable.InodeSet | ex3/Server/main.c:320 | `inode_set` returns -1 exactly when it fails, and then leaves the table unchanged; otherwise only the contents of that inode change |
| Inodes.Get | ex3/Server/main.c:146 | `inode_get`: the inode, or nothing when the call fails or the inumber is unused; `InodeTable.InodeGet` is proved against it |
| Inodes.Delete | ex3/Server/main.c:156 | `inode_delete`: the table without the inode, or nothing; `InodeTable.InodeDelete` is proved against it |
| Inodes.Set | ex3/Server/main.c:320 | `inode_set`: only that inode's contents replaced, or nothing; `InodeTable.InodeSet` is proved against it |
| Ex1Fs.FindAfterCreate | ex1/fs.c:35-47 | after `create`, `lookup` of the name gives its inumber and `lookup` of any other name is unchanged |
| Ex1Fs.FindAfterDelete | ex1/fs.c:39-47 | after `delete`, `lookup` of the name gives 0 and `lookup` of any other name is unchanged |
| Ex1Fs.TecnicoFs.constructor | ex1/fs.c:19-28 | a new file system has an empty tree and nextINumber 0 |
| Ex1Fs.TecnicoFs.ObtainNewInumber | ex1/fs.c:13-17 | the counter is pre-incremented and its new value returned; the tree is unchanged |
| Ex1Fs.TecnicoFs.Create | ex1/fs.c:35-37 | the name is bound to the inumber and nothing else changes |
| Ex1Fs.TecnicoFs.Delete | ex1/fs.c:39-41 | the name is unbound and nothing else changes |
| Ex1Fs.TecnicoFs.Lookup | ex1/fs.c:43-47 | returns the name's inumber, or 0 when it is absent |
| Ex1Main.QueuedPrefix | ex1/main.c:105-130 | the commands queued from the first i lines are a prefix of those queued from the whole input |
| Ex1Main.QueuedExactly | ex1/main.c:111-128 | every queued command is an input line whose first character is c, l or d, and every such line is queued, whatever its token count (errorParse does not exit in ex1) |
| Ex1Main.Queued | ex1/main.c:102-131 | the lines processInput queues, in input order; `QueuedExactly`, `QueuedPrefix` and `QueuedSnoc` state what it holds |
| Ex1Main.CommandQueue.constructor | ex1/main.c:79-95 | the queue starts empty with its head at 0 |
| Ex1Main.CommandQueue.InsertCommand | ex1/main.c:79-85 | returns 1 and appends the command exactly when the queue is not full (numberCommands != MAX_COMMANDS); otherwise returns 0 and changes nothing |
| Ex1Main.CommandQueue.RemoveCommand | ex1/main.c:87-95 | returns nothing exactly when the queue is empty; otherwise returns the command at the head and advances the head |
| Ex1Main.InsertAfterRemoveLosesOrder | ex1/main.c:79-91 | insertion writes at index numberCommands while removal advances headQueue, so an insert after a removal overwrites a pending command: after inserting "c x" and "c y", the first removal gives "c x", "c z" then overwrites "c y", and the second removal gives "c z" |
| Ex1Main.QueueLine | ex1/main.c:108-128 | one input line queues its command, unless the queue is full, in which case reading stops with the queue unchanged |
| Ex1Main.ProcessInput | ex1/main.c:102-131 | the queue gets the queueable commands of the input in order, cut at the queue's remaining room |
| Ex1Main.ReadLine | ex1/main.c:105-130 | one loop iteration keeps the queue equal to the commands queued from the lines read so far, or ends with the full cut-off sequence |
| Ex1Main.AllRead | ex1/main.c:105-130 | when every line fits, the queue holds the queued commands cut at the room |
| Ex1Main.QueuedSnoc | ex1/main.c:105-130 | reading one more line appends exactly that line's command, if it has one |
| Ex1Main.TakeUpTo | ex1/main.c:120-123 | stopping when the queue fills yields the commands cut at the room |
| Ex1Main.ReplayKeepsAllocated | ex1/main.c:134-197 | applying commands never lowers nextINumber, and every bound inumber stays between 1 and nextINumber |
| Ex1Main.CreatesNumberInOrder | ex1/main.c:151-160 | creating distinct new names one after another binds the k-th name to the old nextINumber+k+1, produces no reports, and changes no other name |
| Ex1Main.CreatesShift | ex1/main.c:151-160 | numbering the rest of the names after the first extends to numbering all of them |
| Ex1Main.FirstCreate | ex1/main.c:151-160 | applying a create line first binds its name to nextINumber+1 and then continues with the rest |
| Ex1Main.ApplyCommand | ex1/main.c:140-191 | one command changes the file system, reports and abort flag exactly as `ApplyOne`: a token count other than two or an unknown tag aborts; otherwise c creates with the next inumber, l reports found or not found, d deletes |
| Ex1Main.ApplyOne | ex1/main.c:142-190 | one command of applyCommands' switch, the specification `ApplyCommand` is proved against; `FirstCreate` and `CreatesNumberInOrder` state its numbering |
| Ex1Main.Replay | ex1/main.c:134-197 | the commands in queue order up to the first exit; `ReplayKeepsAllocated` and `CreatesNumberInOrder` state its properties and `ApplyCommands` is proved against it |
| Ex1Main.ReplayAdvance | ex1/main.c:135-192 | applying the first pending command either aborts the whole replay or leaves the rest to replay from the new state |
| Ex1Main.ApplyCommands | ex1/main.c:134-197 | draining the queue leaves the file system, reports and abort flag that replaying the pending commands gives, and an empty queue unless aborted |
| Ex1Main.ApplyNext | ex1/main.c:135-191 | one iteration of the drain loop keeps the rest of the replay accounted for |
| Ex1Main.Run | ex1/main.c:199-219 | reading the input and then applying the queue gives the replay of the queued commands from an empty file system |
| Ex2Fs.FindZeroIffAbsent | ex2/fs.c:135-145 | `lookup` returns 0 if and only if the name is not in its bucket, since inumbers start at 1 |
| Ex2Fs.RenameOutcomes | ex2/fs.c:147-228 | rename changes nothing when the name is absent or the new name is taken; otherwise the new name gets the old inumber in its bucket, the old name leaves its bucket, and no other bucket changes |
| Ex2Fs.Renamed | ex2/fs.c:147-228 | renameNode's effect on the buckets; `RenameOutcomes` states it |
| Ex2Fs.TecnicoFs.constructor | ex2/fs.c:59-91 | numberBuckets empty buckets, one lock each, and nextINumber 0 |
| Ex2Fs.TecnicoFs.ObtainNewInumber | ex2/fs.c:54-57 | pre-increments the counter and returns the new value |
| Ex2Fs.TecnicoFs.Create | ex2/fs.c:115-123 | binds the name in the given bucket under that bucket's lock |
| Ex2Fs.TecnicoFs.Delete | ex2/fs.c:125-133 | unbinds the name in the given bucket under that bucket's lock |
| Ex2Fs.TecnicoFs.Lookup | ex2/fs.c:135-145 | returns the name's inumber in the bucket, or 0 |
| Ex2Fs.TecnicoFs.RenameNode | ex2/fs.c:147-228 | the buckets become those of `Renamed`; when anything moved, both bucket locks were held for the move |
| Ex2Fs.TecnicoFs.PrintTree | ex2/fs.c:230-234 | visits every bucket in order |
| Ex2Main.GuardAsWrittenOverruns | ex2/main.c:75-78 | with the length test as written, a 100-character command is buffered, and the buffer then holds a command that does not fit its 100-character slot with its NUL, which the buffer's invariant forbids |
| Ex2Main.InsertedAsWritten | ex2/main.c:75-83 | the buffered commands after insertCommand as written: the command is appended when `strlen(data) <= MAX_INPUT_SIZE`; `GuardAsWrittenOverruns` states what that admits |
| Ex2Main.Classify | ex2/main.c:105-132 | with the corrected length test, processInput's decision for one line (skip, queue, error exit, or return); `ProduceWellFormed` states what it queues |
| Ex2Main.Produce | ex2/main.c:101-133 | with the corrected length test, the commands processInput queues and how it ends; `ProduceFromActions`, `ProduceWellFormed` and `SentinelsLast` state its properties |
| Ex2Main.ProduceFromActions | ex2/main.c:101-133 | with the corrected length test, the loop over classified lines produces the same commands and ending as reading the remaining lines |
| Ex2Main.ProduceWellFormed | ex2/main.c:111-126 | every produced command scans with a token among c, l, d, r and the word count its token needs, and is never the sentinel |
| Ex2Main.SentinelsLast | ex2/main.c:134-136 | the buffer receives the produced commands, then one sentinel per thread, and the sentinels only when the input was read to its end |
| Ex2Main.ReplaySnoc | ex2/main.c:141-199 | consuming one more command extends the replay by that command's effect |
| Ex2Main.SentinelsOnlyFinish | ex2/main.c:143-149 | a sentinel changes neither the file system nor the reports; it only finishes a thread |
| Ex2Main.ThreadsFinish | ex2/main.c:134-149 | replaying the whole stream gives the file system and reports of the commands alone, with every thread finished when the input was read to its end |
| Ex2Main.EffectKeepsSound | ex2/main.c:156-189 | each command keeps every name in its hash bucket and every inumber within 1..nextINumber, and never lowers nextINumber |
| Ex2Main.Effect | ex2/main.c:156-189 | one command of applyCommands' switch; its contract keeps the bucket count, `EffectKeepsSound` the invariant, and `ApplyCommand` is proved against it |
| Ex2Main.ReplayKeepsSound | ex2/main.c:141-199 | that soundness holds after any sequence of commands |
| Ex2Main.Replay | ex2/main.c:141-199 | the consumers taking the commands in buffer order; its contract keeps the bucket count, and `ReplaySnoc`, `ThreadsFinish` and `ReplayKeepsSound` state the rest |
| Ex2Main.CommandBuffer.constructor | ex2/main.c:227 | the ring buffer starts empty |
| Ex2Main.CommandBuffer.InsertCommand | ex2/main.c:74-84 | with the corrected length test: returns 1, writes the command to slot producerPtr % MAX_COMMANDS, advances producerPtr and appends the command when it fits its slot; otherwise returns 0 and changes neither the pointers nor the slots; consumerPtr never changes, and every buffered command fits its 100-character slot with its NUL |
| Ex2Main.CommandBuffer.RemoveCommand | ex2/main.c:86-92 | returns the command in slot consumerPtr % MAX_COMMANDS, which is the oldest one, advances consumerPtr and removes it (first in, first out); producerPtr does not change |
| Ex2Main.ApplyCommand | ex2/main.c:153-189 | one command changes the buckets, nextINumber and the reports exactly as `Effect` |
| Ex2Main.ConsumeOne | ex2/main.c:141-199 | a consumer takes one command from the buffer and the state stays the replay of the commands consumed so far |
| Ex2Main.Put | ex2/main.c:74-84 | the producer inserts a command, after a consumer frees a slot when the buffer is full, keeping the state in step with the stream |
| Ex2Main.Drain | ex2/main.c:141-199 | consumers empty the buffer and the state is the replay of everything consumed |
| Ex2Main.ProcessLine | ex2/main.c:101-132 | with the corrected length test, one input line is skipped, queued, or ends the reading (error exit, or a failed insert) as its classification says |
| Ex2Main.NextLine | ex2/main.c:101-132 | a queued line is the next command of the stream, and a skipped line changes nothing |
| Ex2Main.FeedLines | ex2/main.c:101-133 | with the corrected length test, the producer loop puts the produced commands into the buffer in order and ends as `Produce` says |
| Ex2Main.FeedSentinels | ex2/main.c:134-136 | one sentinel per thread is put after the commands |
| Ex2Main.Run | ex2/main.c:203-291 | with the corrected length test, the final file system and reports are those of replaying the whole stream from the empty file system, and every thread finishes when the input was read to its end |
| Ex3Fs.FindAbsent | ex3/Server/fs.c:76-84 | `lookup` returns -1 if and only if the name is not in its bucket |
| Ex3Fs.RenameOutcomes | ex3/Server/fs.c:86-135 | rename returns -4 exactly when the name is absent, -5 exactly when the new name is taken, and 0 otherwise; only on 0 does anything change: the new name gets the old inumber, the old name leaves, no other bucket changes |
| Ex3Fs.Renamed | ex3/Server/fs.c:86-135 | renameNode's code and buckets; its contract keeps the bucket count and `RenameOutcomes` states the rest |
| Ex3Fs.RenameKeepsPlacement | ex3/Server/fs.c:86-135 | rename keeps every name in its hash bucket; on 0 the new name resolves to what the old one did and the old name to nothing |
| Ex3Fs.TecnicoFs.constructor | ex3/Server/fs.c:22-45 | numberBuckets empty buckets, one lock each |
| Ex3Fs.TecnicoFs.Create | ex3/Server/fs.c:60-66 | binds the name in the given bucket under its write lock |
| Ex3Fs.TecnicoFs.Delete | ex3/Server/fs.c:68-74 | unbinds the name under the bucket's write lock |
| Ex3Fs.TecnicoFs.Lookup | ex3/Server/fs.c:76-84 | returns the name's inumber in the bucket, or -1 |
| Ex3Fs.TecnicoFs.RenameNode | ex3/Server/fs.c:86-135 | the return code and new buckets are those of `Renamed`; on success both bucket locks were held for the move |
| Ex3Fs.TecnicoFs.PrintTree | ex3/Server/fs.c:137-141 | visits every bucket in order |
| Ex3Protocol.FreeTable | ex3/Server/main.c:102-105 | a new connection's table has five free slots (permission NONE, inumber -1) |
| Ex3Protocol.FirstFree | ex3/Server/main.c:227-232 | the index of the first free slot, or -1 exactly when every slot is taken |
| Ex3Protocol.Rescan | ex3/Server/main.c:107-115 | an empty request leaves the previous scan as it was; otherwise the token is the request's first character |
| Ex3Protocol.DeniedIsBitRule | ex3/Server/main.c:237-245 | the permission test refuses a mode exactly when the mode asks for a bit the permission lacks |
| Ex3Protocol.Fetched | ex3/Server/main.c:146 | what a successful `inode_get` leaves in owner, ownerPerms, otherPerms and fileContents; `DeleteReplies`, `OpenReplies`, `RenameInodeReplies` and `ReadReplies` state where it applies |
| Ex3Protocol.CreateCmd | ex3/Server/main.c:119-136 | case 'c': keeps the session and the table size and always replies; `CreateReplies` states the replies |
| Ex3Protocol.DeleteCmd | ex3/Server/main.c:138-165 | case 'd': keeps the table and the scan and always replies; `DeleteReplies` states the replies |
| Ex3Protocol.RenameCmd | ex3/Server/main.c:166-200 | case 'r': keeps the table and the scan and always replies; `RenameReplies` states the replies |
| Ex3Protocol.RenameInode | ex3/Server/main.c:180-197 | the inode half of case 'r': keeps the names, the table and the scan and always replies; `RenameInodeReplies` states the replies |
| Ex3Protocol.OpenCmd | ex3/Server/main.c:201-257 | case 'o': leaves the world and the scan alone and always replies; `OpenReplies` states the replies |
| Ex3Protocol.CloseCmd | ex3/Server/main.c:258-275 | case 'x': leaves the world and the scan alone; replies or is undefined; `CloseReplies` states which |
| Ex3Protocol.ReadCmd | ex3/Server/main.c:276-293 | case 'l': changes nothing shared; replies or is undefined; `ReadReplies` states which |
| Ex3Protocol.WriteCmd | ex3/Server/main.c:294-328 | case 'w': leaves the session and the names alone; replies or is undefined; `WriteReplies` states which |
| Ex3Protocol.Dispatch | ex3/Server/main.c:118-332 | the switch on the token: keeps the bucket count, the table size and the scan, never ends the session, and aborts exactly when the token is outside "cdroxlw" |
| Ex3Protocol.Step | ex3/Server/main.c:106-333 | one turn of the loop: keeps the bucket count and a five-slot table; `EndOfSession` and `StepKeeps` state the rest |
| Ex3Protocol.Serve | ex3/Server/main.c:106-338 | the session loop over a sequence of requests; `ServeTurn`, `ServeEnd` and `ServeKeeps` state its properties and `Ex3Server.Connection.Serve` is proved against it |
| Ex3Protocol.CreateReplies | ex3/Server/main.c:119-136 | -4 exactly when the name exists, -11 exactly when inode creation fails, 0 otherwise; on 0 a fresh inode owned by the caller is bound to the name, and otherwise nothing changes |
| Ex3Protocol.DeleteReplies | ex3/Server/main.c:138-165 | -5 when absent; -11 when the inode lookup or deletion fails; -6 when the caller is not the owner; 0 when the inode and the name are both removed; a successful `inode_get` refreshes owner, permissions and fileContents (copied for strlen(fileContents)), and nothing else does |
| Ex3Protocol.RenameReplies | ex3/Server/main.c:166-200 | -4 exactly when the name is absent and -5 exactly when the new name is taken, both with nothing changed; otherwise the name has already moved to the new one, every other bucket is unchanged, and the inode steps go as `RenameInodeDone` states |
| Ex3Protocol.RenameInodeReplies | ex3/Server/main.c:180-197 | the metadata (owner, permissions and fileContents, copied for strlen(fileContents)) is what `inode_get` leaves when it succeeds and is left from an earlier command when it fails; -6 exactly when that owner is not the caller, with the inodes unchanged; -11 exactly when the owner matches and the delete or the re-create fails, the inode being gone only when the delete succeeded; 0 only when both succeed, the old inode deleted and a new empty one created for the caller with the same permissions |
| Ex3Protocol.OpenReplies | ex3/Server/main.c:201-257 | -5 absent, -11 inode lookup failed, -9 already open, -7 table full, -6 mode not allowed for the caller; otherwise the first free slot takes the file with the mode and the reply is its index; a successful `inode_get` refreshes owner, permissions and fileContents, and nothing else does |
| Ex3Protocol.CloseReplies | ex3/Server/main.c:258-275 | an out-of-range descriptor is undefined (the table is indexed before the range check, so -11 is never sent); -8 when the slot is free; otherwise 0 and only that slot is freed |
| Ex3Protocol.ReadReplies | ex3/Server/main.c:276-293 | out of range is undefined; -8 free slot, -10 not opened for reading, -11 inode lookup failed; otherwise `inode_get` copies for the requested length over what earlier requests left in fileContents, and the reply is that buffer's text, or undefined when the text does not fit the 100 characters `responseClient` copies; every reply is under 100 characters |
| Ex3Protocol.ReadRepliesWithEarlierBuffer | ex3/Server/main.c:285-290 | when `inode_get` copies nothing, a successful read replies with the fileContents an earlier request left |
| Ex3Protocol.WriteReplies | ex3/Server/main.c:294-328 | a request of at most four characters or an out-of-range descriptor is undefined; -8 free slot, -6 not opened for writing, -11 set failed; otherwise 0 and the contents become the text after "w d " |
| Ex3Protocol.EndOfSession | ex3/Server/main.c:111-112 | the session ends exactly at the request "f", leaves the world alone and frees every slot |
| Ex3Protocol.WhatChangesWhat | ex3/Server/main.c:118-332 | only c, d and r change the names; only c, d, r and w change the inodes; a token outside "cdroxlw" aborts |
| Ex3Protocol.CreateKeeps | ex3/Server/main.c:119-136 | create keeps every name in its home bucket and every bound inumber non-negative |
| Ex3Protocol.DeleteKeeps | ex3/Server/main.c:138-165 | delete keeps the same invariant |
| Ex3Protocol.RenameKeeps | ex3/Server/main.c:166-200 | rename keeps the same invariant |
| Ex3Protocol.OpenKeeps | ex3/Server/main.c:201-257 | open keeps the table invariant: a slot with inumber -1 is entirely free, and no inumber is open in two slots |
| Ex3Protocol.CloseKeeps | ex3/Server/main.c:258-275 | close keeps the table invariant |
| Ex3Protocol.FreeSlotKeeps | ex3/Server/main.c:269-270 | freeing a slot keeps the table invariant |
| Ex3Protocol.DispatchKeeps | ex3/Server/main.c:118-332 | every command keeps the world and table invariants |
| Ex3Protocol.NamingKeeps | ex3/Server/main.c:119-200 | c, d and r keep both invariants |
| Ex3Protocol.SlotCommandKeeps | ex3/Server/main.c:201-328 | o, x, l and w keep both invariants |
| Ex3Protocol.StepKeeps | ex3/Server/main.c:106-333 | one request of any kind keeps both invariants |
| Ex3Protocol.ServeTurn | ex3/Server/main.c:106-333 | a session that does not start with "f" is the first reply followed by the rest, or stops at an abort or undefined step |
| Ex3Protocol.ServeEnd | ex3/Server/main.c:111-112 | a session starting with "f" ends at once and frees the table |
| Ex3Protocol.ServeKeeps | ex3/Server/main.c:106-338 | a whole session keeps both invariants, replies at most once per request, replies to every request when it does not end early, and leaves every slot free when it ends with "f" |
| Ex3Server.Connection.constructor | ex3/Server/main.c:88-105 | a connection starts with five free slots |
| Ex3Server.Connection.Scan | ex3/Server/main.c:115 | the scan outputs become `Rescan` of the old ones; the inode metadata and fileContents are unchanged |
| Ex3Server.Connection.CreateFile | ex3/Server/main.c:119-136 | the table, world and reply are those of `CreateCmd` |
| Ex3Server.Connection.DeleteFile | ex3/Server/main.c:138-165 | the table, locals, fileContents, world and reply are those of `DeleteCmd` |
| Ex3Server.Connection.RenameFile | ex3/Server/main.c:166-200 | the table, world and reply are those of `RenameCmd` |
| Ex3Server.Connection.RenameInode | ex3/Server/main.c:180-197 | the inode steps of rename agree with `Ex3Protocol.RenameInode` |
| Ex3Server.Connection.OpenFile | ex3/Server/main.c:201-257 | the table, locals, fileContents, world and reply are those of `OpenCmd` |
| Ex3Server.Connection.IsOpen | ex3/Server/main.c:215-223 | the search loop finds whether the inumber is in some slot |
| Ex3Server.Connection.FindFree | ex3/Server/main.c:227-232 | the search loop returns the first free slot, or -1 |
| Ex3Server.Connection.CloseFile | ex3/Server/main.c:258-275 | the table and reply are those of `CloseCmd` |
| Ex3Server.Connection.ReadFile | ex3/Server/main.c:276-293 | the locals, fileContents and reply are those of `ReadCmd` |
| Ex3Server.Connection.WriteFile | ex3/Server/main.c:294-328 | the copy loop and checks give the inodes and reply of `WriteCmd` |
| Ex3Server.Connection.Handle | ex3/Server/main.c:115-333 | scanning and handling one request is exactly `Dispatch` on the rescanned session |
| Ex3Server.Connection.Serve | ex3/Server/main.c:106-338 | the receive loop's replies, ending, final table and world are exactly `Ex3Protocol.Serve` of the requests |
| Ex3Server.Connection.Turn | ex3/Server/main.c:115-333 | one iteration of the loop keeps the rest of the session accounted for, or stops with the session's outcome |
| Ex3Server.Connection.EndSession | ex3/Server/main.c:335-338 | at "f" the table is released and the session is complete |
| Ex3Server.Connection.ReleaseSlots | ex3/Server/main.c:335-338 | every slot becomes free; nothing else in the session changes |
| Ex3Server.AccountedStart | ex3/Server/main.c:106 | before the first request the whole session is still ahead |
| Ex3Server.AccountedDone | ex3/Server/main.c:106-113 | when the requests run out, the session is the replies so far with no ending |
| Ex3Server.FirstFreeIs | ex3/Server/main.c:227-232 | an index with the first-free property is `FirstFree` |
| Ex3Client.Answered | ex3/Client/tecnicofs-client-api.c:41-55 | a call returns a decoded number exactly when it sent a request |
| Ex3Client.CreateCall | ex3/Client/tecnicofs-client-api.c:38-50 | tfsCreate's argument checks and request; `CreateRoundTrip` states what the server reads back |
| Ex3Client.DeleteCall | ex3/Client/tecnicofs-client-api.c:58-70 | tfsDelete's check and request; `DeleteRoundTrip` states what the server reads back |
| Ex3Client.RenameCall | ex3/Client/tecnicofs-client-api.c:78-90 | tfsRename's checks and request; `RenameRoundTrip` states what the server reads back |
| Ex3Client.OpenCall | ex3/Client/tecnicofs-client-api.c:98-110 | tfsOpen's checks and request; `OpenRoundTrip` states what the server reads back |
| Ex3Client.CloseCall | ex3/Client/tecnicofs-client-api.c:118-130 | tfsClose's check and request; `CloseRoundTrip` states what the server reads back |
| Ex3Client.ReadCall | ex3/Client/tecnicofs-client-api.c:138-150 | tfsRead's checks and request; `ReadRoundTrip` states what the server reads back |
| Ex3Client.UnmountCall | ex3/Client/tecnicofs-client-api.c:186-190 | tfsUnmount's request "f"; `UnmountEndsSession` states its effect |
| Ex3Client.WriteCallAsWritten | ex3/Client/tecnicofs-client-api.c:166-178 | tfsWrite as written, formatting with the bound MAX_INPUT_SIZE; `WriteAsWrittenOverruns` exhibits the overrun |
| Ex3Client.WriteCall | ex3/Client/tecnicofs-client-api.c:166-178 | tfsWrite with the bound min(5 + len, MAX_INPUT_SIZE); `WriteRoundTrip` states what the server reads back |
| Ex3Client.TfsCreate | ex3/Client/tecnicofs-client-api.c:38-56 | the value tfsCreate returns; `Answered` and `RepliesPassThrough` state it |
| Ex3Client.TfsDelete | ex3/Client/tecnicofs-client-api.c:58-76 | the value tfsDelete returns; `Answered` and `RepliesPassThrough` state it |
| Ex3Client.TfsRename | ex3/Client/tecnicofs-client-api.c:78-96 | the value tfsRename returns; `Answered` and `RepliesPassThrough` state it |
| Ex3Client.TfsOpen | ex3/Client/tecnicofs-client-api.c:98-116 | the value tfsOpen returns; `Answered` and `RepliesPassThrough` state it |
| Ex3Client.TfsClose | ex3/Client/tecnicofs-client-api.c:118-136 | the value tfsClose returns from its four-byte receive; `RepliesPassThrough` states it |
| Ex3Client.TfsWrite | ex3/Client/tecnicofs-client-api.c:166-184 | the value tfsWrite returns, with the corrected bound; `Answered` and `RepliesPassThrough` state it |
| Ex3Client.StrNCopy | ex3/Client/tecnicofs-client-api.c:161 | `strncpy` writes the text, then NULs up to n, and leaves the rest of the buffer alone |
| Ex3Client.StrLen | ex3/Client/tecnicofs-client-api.c:163 | `strlen` is the index of the first NUL |
| Ex3Client.TfsRead | ex3/Client/tecnicofs-client-api.c:138-164 | a bad descriptor or length returns the error and leaves the buffer alone; a negative reply is returned as is; otherwise at most len-1 characters of the reply are copied, NUL-terminated, and their count returned |
| Ex3Client.CopyOut | ex3/Client/tecnicofs-client-api.c:161-163 | the copy ends with the text cut at len-1, NULs up to len, and the buffer beyond len unchanged |
| Ex3Client.RescanOne | ex3/Server/main.c:115 | the server's scan of "t word" gives token t and that word, keeping the old second argument |
| Ex3Client.RescanTwo | ex3/Server/main.c:115 | the server's scan of "t w1 w2" gives token t and both words |
| Ex3Client.CreateRoundTrip | ex3/Client/tecnicofs-client-api.c:38-56 | a valid create sends a request that the server scans back to 'c', the file name, and the two permission digits |
| Ex3Client.OpenRoundTrip | ex3/Client/tecnicofs-client-api.c:98-116 | the server reads back 'o', the name and the mode |
| Ex3Client.DeleteRoundTrip | ex3/Client/tecnicofs-client-api.c:58-76 | the server reads back 'd' and the name |
| Ex3Client.RenameRoundTrip | ex3/Client/tecnicofs-client-api.c:78-96 | for any two names of combined length at most 96 (the longest request the 100-character bound keeps whole), the server reads back 'r' and both names |
| Ex3Client.CloseRoundTrip | ex3/Client/tecnicofs-client-api.c:118-136 | the server reads back 'x' and the descriptor |
| Ex3Client.ReadRoundTrip | ex3/Client/tecnicofs-client-api.c:138-145 | the server reads back 'l', the descriptor and the length |
| Ex3Client.WriteRoundTrip | ex3/Client/tecnicofs-client-api.c:166-173 | with the bound min(5 + len, MAX_INPUT_SIZE), the request with its NUL fits the 5 + len array and the server's 100-character receive; the server's write text is the first min(len, 95) characters of the buffer, and the descriptor scans back |
| Ex3Client.WriteRequestScans | ex3/Server/main.c:115 | "w d text" scans to the descriptor d, and the text comes through whole |
| Ex3Client.UnmountEndsSession | ex3/Client/tecnicofs-client-api.c:186-190 | the unmount request ends the server's session, frees its table and leaves the world alone |
| Ex3Client.RepliesPassThrough | ex3/Client/tecnicofs-client-api.c:55 | every numeric reply the server sends reaches the caller unchanged, including through tfsClose's four-byte receive |
| Ex3Client.CreatedPermissionsAdmitEveryMode | ex3/Server/main.c:128 | create passes the permission characters '0'..'3', not the numbers, so the stored permissions are at least 48 and no mode 0..3 is ever refused |
| Ex3Client.WriteAsWrittenOverruns | ex3/Client/tecnicofs-client-api.c:167-173 | as written, writing "abcdef" with len 1 formats 11 characters with the NUL into a 6-character array |

## Left out

- Sockets, files and standard streams are left out. What a connection receives, the lines of the input file and the replies a client gets are parameters. What is printed (lookup reports, the tree dump, the timing line) is returned as values.
- `tfsMount`, `parseArgs`, `displayUsage`, `free_tecnicofs` and the server's accept loop and `termination` handler are left out: they are socket setup, argument parsing and cleanup with no state the model keeps.
- Threads, the semaphores and mutexes of ex2, and the server's condition variable are left out. Ex2's consumers are run one command at a time in producer order, which is one of the interleavings the semaphores allow. The bucket locks are kept as ghost bookkeeping (`Locks`).
- The random back-off (`rand`, `usleep`) of `renameNode` is left out. Each round's try-lock outcome is an input. The loop is modelled as ending at the first round that gets both locks, under the assumption that such a round exists.
- Try-lock errors other than EBUSY exit the process. They are not modelled: every failed round counts as busy.
- `lib/bst.c`, `lib/hash.c` and `lib/inodes.c` are not part of this model. Trees are maps, the hash is any function into the bucket range, and inode failures and the choice of fresh inumber are inputs.
- Ex1Fs.TecnicoFs.Create, Ex2Fs.TecnicoFs.Create, Ex3Fs.TecnicoFs.Create: creating a name that already exists depends on `lib/bst.c`, which is not part of this model, so it is a precondition. In ex3 the server's lookup before `create` (ex3/Server/main.c:121-126) meets it, so nothing is lost there.
- `atoi` overflow and `%d` on values outside 32 bits are not modelled: integers are unbounded.
- Ex3Protocol.CloseCmd, Ex3Protocol.ReadCmd, Ex3Protocol.WriteCmd: indexing `file_table` with an out-of-range descriptor, and writing a request too short for the copy loop, are undefined behaviour in C. The model stops the session with `Undefined` rather than guessing what memory holds.
- The stale values that `sscanf` leaves in `arg1`/`arg2` and that a failed `inode_get` leaves in `owner`/`ownerPerms`/`otherPerms`, and the text every `inode_get` leaves in `fileContents`, are modelled as session state. Garbage in never-written locals is modelled as the initial session parameters.
- `ucred` is a process-wide variable holding the credentials of the last accepted client. It is a per-request uid input.
- Ex3Protocol.ReadCmd: what `inode_get` leaves in fileContents, given the text the buffer held, the inode's contents and the length, is decided by `lib/inodes.c`. It is an input function `copy`. The buffer is modelled as its text up to the NUL, so a fileContents with no NUL in its 100 characters (for `strlen(fileContents)` in d, r and o) is not modelled, and neither is a copy overrunning the buffer.
- Ex3Client.TfsRead: `recv` may deliver fewer bytes than were sent. The reply is taken to arrive whole.
- `fgets` splitting lines longer than 99 characters into several lines is not modelled: each input line is given as one string.
- The `TECNICOFS_ERROR_*` constants are not defined in the available source. The client's `TECNICOFS_ERROR_OTHER` is `ErrorOther`, and the send and receive failures (`TECNICOFS_ERROR_NO_OPEN_SESSION`) are left out with the socket.
- `obtainNewInumber` is declared for ex3 but never defined or called there, so `Ex3Fs.TecnicoFs` has no counter operation.
- Ex3Client.WriteCall, Ex3Client.TfsWrite: `char command[5 + len]` is declared before the `len <= 0` test, so with `len <= -5` the array has a non-positive size, which is undefined behaviour in C. The model answers `ErrorOther`, as the test that follows does.
- Ex2Main: `producerPtr` and `consumerPtr` growing past the largest int is not modelled.

## Findings

| source | as written | input that shows it | evidently intended | confidence | as-written member | corrected member |
|---|---|---|---|---|---|---|
| ex2/main.c:75-78 | `insertCommand` accepts `strlen(data) <= MAX_INPUT_SIZE` and `strcpy`s into a slot of `MAX_INPUT_SIZE` chars | a command of 100 characters: it passes the test and its NUL is written past the slot (`processInput` reads with `fgets` of size 100, so only a direct caller can pass such a command) | accept only `strlen(data) < MAX_INPUT_SIZE` | not executed | Ex2Main.GuardAsWrittenOverruns | Ex2Main.CommandBuffer.InsertCommand |
| ex3/Client/tecnicofs-client-api.c:167-173 | `tfsWrite` declares `char command[5 + len]` but formats with the bound `MAX_INPUT_SIZE` | `tfsWrite(0, "abcdef", 1)`: "w 0 abcdef" and its NUL are 11 characters written into a 6-character array | format with the bound `min(5 + len, MAX_INPUT_SIZE)`, sending at most `len` characters of the buffer and never more than the server's 100-character receive | not executed | Ex3Client.WriteAsWrittenOverruns | Ex3Client.WriteRoundTrip |
