# git-fs: a read-only FUSE view of a git tree, in Dafny

`GitFilesystem` mounts one git tree object as a read-only directory. The
kernel names files by 64-bit inode numbers and the repository names them by
object ids. An interning table (`Bimap`) connects the two. It hands out
inode numbers 1, 2, 3, … in the order object ids are first seen. Inode 1 is
the mounted root tree, and a number once given is never reused or rebound.
Four request handlers answer the kernel:

- `lookup` finds a name in a directory.
- `getattr` reports a node's attributes.
- `read` returns bytes of a file.
- `readdir` lists a directory.

Every handler resolves its inode through the table. readdir interns every
child of the directory it lists; lookup interns only the entry whose name
matches. The attributes are synthetic:

- a blob is a regular file of its content's length;
- a tree is a directory of size 0;
- permissions are 0o755, owner and group are 99, and there are 2 links;
- every timestamp is a fixed creation time.

The model is split into six modules, one per file:

- `Objects` (`objects.dfy`): the object store, an immutable map from object id to tree, blob or other object.
- `Fuse` (`fuse.dfy`): the attribute, directory-entry and reply records, and the constants the source uses. Every place where the source panics becomes a distinct `Panic(site)` reply.
- `InodeTable` (`inode_table.dfy`): the interning table. The value `Table` gives the meaning: it is a bijection, interning is idempotent, and bindings never change. The class `Bimap` has the source's two fields, and its methods are proved against `Table`.
- `TreeEngine` (`tree_engine.dfy`): the handlers as functions of the store and the table. Each handler that may intern returns the new table beside its reply.
- `EngineProperties` (`engine_properties.dfy`): lemmas that relate the handlers to each other.
- `GitFs` (`git_filesystem.dfy`): the `GitFilesystem` class. It owns a `Bimap`, and its loops over tree entries are proved against `TreeEngine`.

`Scenarios` (`scenarios.dfy`) works one small repository through every
handler, both on the functions and on the class.

The model follows the code, including where it is stricter than a
filesystem usually is:

- readdir ends a listing at cursor `n + 1`, where `n` is the number of tree entries (src/main.rs:261). Any other nonzero cursor panics, so a one-entry directory ends at cursor 2 and cursor 3 aborts.
- getattr and read on an unknown inode panic instead of replying with an error (src/main.rs:193-197, 239-243).
- read does not clamp the requested range. `TreeEngine.ReadAsWritten` follows the code here; the class uses the corrected `TreeEngine.Read` instead (see "## Findings").

## Model

| member | source | states |
|---|---|---|
| InodeTable.Table.Forward | src/main.rs:52-58 | inode k resolves exactly when k is at most the number of interned ids; in a valid table the id found maps back to k |
| InodeTable.Table.Reverse | src/main.rs:60-65 | in a valid table an id has an inode exactly when it was interned, and that inode is in range and resolves back to the id |
| InodeTable.Table.Intern | src/main.rs:67-81 | a known id keeps its inode and the table is unchanged; a new id is appended and numbered one past the previous size; the table only grows, stays a bijection, and the returned inode (at least 1) resolves to the id |
| InodeTable.AppendKeepsValid | src/main.rs:74-80 | pushing a new id and binding it to the new length keeps forward and reverse inverse to each other |
| InodeTable.AppendForward | src/main.rs:74-78 | after the push every position i maps back to inode i + 1 |
| InodeTable.AppendReverse | src/main.rs:74-78 | after the insert every bound id sits at the position its inode names |
| InodeTable.Mount | src/main.rs:121-131 | the initial table is valid, binds inode 1 to the root in both directions, and resolves no inode above 1 |
| InodeTable.NoDuplicates | src/main.rs:67-81 | a valid table never lists the same object id under two inodes |
| InodeTable.InternIdempotent | src/main.rs:67-71 | interning an id twice gives the same table and inode as interning it once |
| InodeTable.ResolveThenIntern | src/main.rs:52-71 | interning the id an inode resolves to returns that inode and changes nothing |
| InodeTable.BindingStable | src/main.rs:74-78 | once an inode resolves, every later table resolves it to the same id |
| InodeTable.Bimap.constructor | src/main.rs:45-50 | a new map is empty and valid |
| InodeTable.Bimap.GetForward | src/main.rs:52-58 | inode k resolves exactly when k is at most the length of `forward`, to `forward[k - 1]`; under the bijection that id maps back to k |
| InodeTable.Bimap.GetReverse | src/main.rs:60-65 | under the bijection an id has an inode exactly when it is in `forward`, and that inode is in range and resolves back to it |
| InodeTable.Bimap.GetReverseOrAlloc | src/main.rs:67-81 | the new fields and the returned inode are those of interning on the old table; validity is kept and the inode resolves to the id |
| TreeEngine.GetTree | src/main.rs:104-110 | inode 0 underflows; otherwise the call succeeds exactly when the inode is bound to a tree in the store, and it returns that tree's entries |
| TreeEngine.GetObj | src/main.rs:112-118 | inode 0 underflows; otherwise the call succeeds exactly when the inode is bound to a stored object, and it returns that object |
| TreeEngine.EntryFileType | src/main.rs:93-97 | tree entries are directories, blob entries are regular files, and every other kind has no file type |
| TreeEngine.GetTreeEntryInfo | src/main.rs:89-102 | fails exactly on an unsupported kind, before anything is interned; otherwise the new table and inode are exactly those of interning the entry's id, and it returns them with the mapped file type and the entry's name |
| TreeEngine.AttrOf | src/main.rs:150-174 | no attributes exactly for non-tree, non-blob objects; a blob is a regular file whose size is its content length, a tree a directory of size 0; blocks is the size divided by 4096, rounded up; the shared metadata is fixed |
| TreeEngine.FindEntry | src/main.rs:142-145 | returns the first index whose name matches; None means no entry has that name |
| TreeEngine.LookupEntry | src/main.rs:146-178 | either a panic or an entry reply with the 1-second TTL and generation 0, whose inode is the entry's interned inode and whose attributes are those of the stored object; an unsupported entry kind panics before anything is interned, a missing object panics, and an object that is neither tree nor blob panics |
| TreeEngine.Lookup | src/main.rs:135-188 | replies with an entry, ENOENT or a panic; the table only grows and stays valid, and an ENOENT reply leaves it unchanged; parent inode 0 panics with the table unchanged |
| TreeEngine.GetAttr | src/main.rs:190-234 | an attribute reply only for a bound inode whose stored object has attributes, and then it carries exactly those; inode 0 and unbound inodes panic |
| TreeEngine.ReadAsWritten | src/main.rs:236-252 | the read as the source writes it: data only when the whole range lies inside the blob, and then exactly `size` bytes from `offset` |
| TreeEngine.Read | src/main.rs:236-252 | the read with the range clamped: data exactly when the inode is a blob; the length is 0 at or past the end, otherwise the smaller of `size` and the remaining bytes; the bytes are the blob's from `offset` |
| TreeEngine.ListChildren | src/main.rs:271-277 | the listing loop stops exactly when some entry has an unsupported kind; otherwise entry i is listed at cursor i + 2 with its interned inode, mapped type and name |
| TreeEngine.ReaddirTree | src/main.rs:259-281 | replies with a listing or a panic; the table only grows and stays valid, and any cursor other than 0 leaves it unchanged |
| TreeEngine.Readdir | src/main.rs:254-289 | replies with a listing, ENOENT or a panic; the table only grows and stays valid, and only cursor 0 interns; inode 0 panics with the table unchanged |
| EngineProperties.LookupNotFound | src/main.rs:138-188 | for a nonzero parent, lookup answers ENOENT exactly when the parent is not a tree or no entry of it has the name |
| EngineProperties.LookupFirstMatch | src/main.rs:142-178 | when entry i is the first with the name, is of a supported kind and names a stored tree or blob, lookup replies with the 1-second TTL, generation 0, the inode that interning the entry's id gives, and that object's attributes; the new table is that interning and resolves the inode to the id |
| EngineProperties.LookupFirstMatchFails | src/main.rs:93-156 | when the first entry with the name has an unsupported kind, lookup panics and interns nothing; when it is supported but its object is missing, or is neither tree nor blob, lookup panics after interning the entry's id |
| EngineProperties.GetAttrBound | src/main.rs:193-227 | getattr of a bound inode whose object has attributes replies with exactly those attributes |
| EngineProperties.LookupEntryThenGetAttr | src/main.rs:146-227 | after a successful match, getattr on the returned inode replies with the same attributes |
| EngineProperties.LookupThenGetAttr | src/main.rs:135-227 | after a successful lookup, getattr on the returned inode in the new table replies with the attributes the lookup returned |
| EngineProperties.LookupEntryRepeatable | src/main.rs:146-178 | answering the same matched entry a second time gives the same reply and changes nothing |
| EngineProperties.LookupRepeatable | src/main.rs:135-188 | repeating a lookup gives the same reply and leaves the table as the first call left it |
| EngineProperties.ReaddirFull | src/main.rs:265-281 | a listing at cursor 0 with no unsupported entry is "." and ".." followed by the children |
| EngineProperties.ReaddirListing | src/main.rs:265-281 | such a listing has n + 2 entries; "." and ".." are inode 1 at cursors 0 and 1; child i is at cursor i + 2 with the inode its id resolves to, its mapped type and its name |
| EngineProperties.ReaddirUnsupported | src/main.rs:93-97 | any entry of an unsupported kind makes a full listing panic |
| EngineProperties.ReaddirNotFound | src/main.rs:257-288 | for a nonzero inode, readdir answers ENOENT exactly when the inode is unbound or not bound to a stored tree, at any cursor, and then leaves the table unchanged |
| EngineProperties.ReaddirCursor | src/main.rs:261-281 | at a nonzero cursor, n + 1 gives an empty listing and every other value panics, and the table is unchanged |
| EngineProperties.ListChildrenStep | src/main.rs:271-277 | one loop iteration extends the scan of the first i entries to the scan of the first i + 1 |
| EngineProperties.AbortedScanStops | src/main.rs:271-277 | once the scan has stopped on an unsupported entry, the later entries change nothing |
| EngineProperties.ListChildrenKeys | src/main.rs:271-277 | the listing loop binds no id other than the table's old ids and the children's; a finished listing binds exactly those |
| EngineProperties.ListChildrenInterns | src/main.rs:271-277 | a finished listing appends to `forward` exactly the children's ids not seen before, once each, in tree order, so new inodes are numbered in first-seen order |
| EngineProperties.ListChildrenKnown | src/main.rs:271-277 | listing entries whose ids are all known leaves the table unchanged |
| EngineProperties.ListChildrenRepeatable | src/main.rs:271-277 | when a listing did not stop, listing the same entries again from the table it left gives the same listing and the same table |
| EngineProperties.ReaddirRepeatable | src/main.rs:254-289 | when a full listing succeeds, repeating it gives the same reply and leaves the table as the first call left it |
| EngineProperties.ReadAgreesInRange | src/main.rs:246-247 | when the range lies inside the blob, the clamped read and the read as written agree |
| EngineProperties.ReadAsWrittenPastEnd | src/main.rs:246-247 | when the range runs past the blob, the read as written panics while the clamped read returns data |
| GitFs.GitFilesystem.constructor | src/main.rs:121-131 | the new filesystem's table is the mount table: the root is bound to inode 1 and nothing else |
| GitFs.GitFilesystem.GetTreeEntryInfo | src/main.rs:89-102 | the in-place version has the result and new table of `TreeEngine.GetTreeEntryInfo` on the old table |
| GitFs.GitFilesystem.Lookup | src/main.rs:135-188 | the loop over the parent's entries gives the reply and new table of `TreeEngine.Lookup` on the old table |
| GitFs.GitFilesystem.GetAttr | src/main.rs:190-234 | replies as `TreeEngine.GetAttr` on the current table, and changes nothing |
| GitFs.GitFilesystem.Read | src/main.rs:236-252 | replies as the clamped `TreeEngine.Read` on the current table, and changes nothing |
| GitFs.GitFilesystem.ListChildren | src/main.rs:271-277 | the in-place loop gives the scan of `TreeEngine.ListChildren` on the old table |
| GitFs.GitFilesystem.ReaddirTree | src/main.rs:259-281 | gives the reply and new table of `TreeEngine.ReaddirTree` on the old table |
| GitFs.GitFilesystem.Readdir | src/main.rs:254-289 | gives the reply and new table of `TreeEngine.Readdir` on the old table |
| Scenarios.FirstContact | src/main.rs:89-131 | inode 1 resolves to the root tree's single entry before and after browsing; meeting "a.txt" in the mount table binds its blob to inode 2, and meeting it again changes nothing |
| Scenarios.ListOneChild | src/main.rs:271-277 | the listing loop over the root lists "a.txt" at inode 2 and cursor 2, ending in the browsed table |
| Scenarios.LookupNewFile | src/main.rs:135-188 | looking up "a.txt" in the root gives a regular file of 2 bytes and 1 block at inode 2 |
| Scenarios.LookupMissingName | src/main.rs:142-188 | looking up a name the root lacks replies ENOENT and leaves the table alone |
| Scenarios.ReadFile | src/main.rs:236-252 | the clamped read of the 2-byte file gives "hi" for 2 bytes at offset 0, "i" for 5 bytes at offset 1, and nothing at offset 5 |
| Scenarios.ReadAsWrittenAborts | src/main.rs:247 | the read as written returns "hi" for the exact range but panics for 5 bytes at offset 1 of the 2-byte file |
| Scenarios.ListRoot | src/main.rs:254-289 | listing the root at cursor 0 gives ".", ".." and "a.txt" at inode 2; cursor 2 ends the listing; cursor 3 panics |
| Scenarios.GetAttrUnknownInode | src/main.rs:193-197 | getattr of an inode that was never handed out panics |
| Scenarios.GetAttrBrowsedFile | src/main.rs:193-227 | getattr of inode 2 after browsing reports the 2-byte regular file |
| Scenarios.ListRootAgain | src/main.rs:265-277 | listing the root after the lookup reuses inode 2 for "a.txt" |
| Scenarios.Session | src/main.rs:135-289 | on the class: lookup, getattr, read and readdir of the sample repository give the replies above, and later calls see the inode the lookup allocated |

## Left out

- `LoggingFilesystem`, `main` and the remaining `Filesystem` callbacks are outside this model. They are a logging wrapper, argument handling, mounting, and handlers that only forward.
- Opening the repository is not modelled: the store is a parameter. The store is an immutable map, because the filesystem never writes to the repository.
- The reply callbacks are not modelled: each handler returns one `Reply` value instead of calling the kernel. The `println!` diagnostics are left out.
- The buffer-full result of adding a directory entry is left out. The source ignores it, and the model returns the whole listing.
- git object kinds other than tree and blob (commit, tag, any) are one `OtherType` / `Other` case. The source treats all of them alike: it panics.
- Names are Dafny strings. The `unwrap` of a non-UTF-8 entry name or request name, which would panic, is not modelled.
- Fixed-width integers are not modelled: inodes, offsets, sizes and block counts are unbounded naturals. Within realistic repository sizes the source's `u64`/`usize` arithmetic does not wrap, except at inode 0.
- InodeTable.Table.Forward: requires an inode of at least 1. For inode 0 the source computes `0 - 1` on `usize`, which aborts. The handlers check for 0 first and reply `Panic(InodeUnderflow)`, so the model keeps that case.
- InodeTable.Bimap.GetForward: requires an inode of at least 1, for the same reason.
- A panic is modelled as a reply naming where it happened, and the model continues. The real process dies, so the later mount state is not modelled.
- The `TTL` and `CREATE_TIME` constants are kept as values. Clocks are not consulted anywhere.
- The file handle argument of `read` and `readdir` is unused by the source and is not modelled.

## Findings

| source | as written | input that shows it | evidently intended | confidence | as-written member | corrected member |
|---|---|---|---|---|---|---|
| src/main.rs:247 | read slices `content[offset .. offset + size]` with no bound against the blob's length, so any request running past the end of the file panics | a 2-byte blob read at offset 1 with size 5; the kernel asks for whole pages, so a read of any file shorter than its request hits this (`Scenarios.ReadAsWrittenAborts`) | return the bytes that exist: `content[min(offset, len) .. min(offset + size, len)]`, empty at or past the end | high, not executed | TreeEngine.ReadAsWritten | TreeEngine.Read |

The corrected `TreeEngine.Read` is the read that `GitFs.GitFilesystem.Read` uses.
`EngineProperties.ReadAgreesInRange` proves that it agrees with the source
whenever the source does not panic. `EngineProperties.ReadAsWrittenPastEnd`
proves that the two differ on every range that runs past the end.
