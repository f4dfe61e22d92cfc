# Theia node file system and file search, modelled in Dafny

This project models two back-end services of the Theia IDE.

1. **The node file-system service** (`FileSystemNode`). Each operation reads the disk with a stat call and then checks its preconditions in a fixed order:
   - `setContent` runs an optimistic-concurrency check;
   - `move`, `copy`, `createFile`, `createFolder`, `delete` and `getEncoding` check that the path exists (or does not), the overwrite flag, and that source and target are of the same kind.

   After the checks pass, the operation changes the disk through a primitive: `writeFile`, `mkdirs`, `rmdir`, `utimes`, `mv`, `fs.copy` or `remove`. It then answers with a fresh stat read of the result.

   The service also does the following:
   - It builds stat trees one level deep or more, with directory children in listing order.
   - It sorts operating-system errors into "not found" (ENOENT, EACCES, EBUSY, EPERM) and "propagate".
   - It resolves per-call options against the service's configured defaults (utf8 / no overwrite / recursive / move to trash).
   - It decides, on a fail-safe basis, whether a directory may have children.
2. **The recursive file search** (`FileSearchServiceImpl.find`). It does the following:
   - It resolves its options: fuzzy matching on, limit `Number.MAX_SAFE_INTEGER`, gitignore honoured.
   - It builds the ignore filter. The `.git` directory is always denied, and so is whatever the nearest `.gitignore` denies; that file is found by ascending from the base.
   - It walks the base directory depth first in listing order, pruning every denied entry with its subtree.
   - It collects the files that pass the match rule until the limit is reached. The match rule is the fuzzy test, falling through to a case-insensitive substring test.

The disk is an immutable tree. A `Node` is either a `File(mtime, size, content)` or a `Dir(mtime, entries)`, and a directory's entries are kept in listing order. Paths are sequences of segment names. A file-system state pairs the tree with a map of *faults*: paths whose stat call, or whose listing and read calls, fail with a given errno code. Faults are how the model reaches the error-classification and fail-safe branches of the source.

Every operation is a pure function from a state and arguments to a `Result`: the new state and the stat it answers with, or an error. Clocks are passed as a `now: nat` parameter. The gitignore rule language is a function parameter `Matcher`.

Modules:

| file | module | contents |
|---|---|---|
| wrappers.dfy | Wrappers | `Option`, `Result` |
| file_tree.dfy | FileTree | the tree, path lookup, `Put` (replace or remove the node at a path), well-formedness (distinct names per directory) |
| errors.dfy | Errors | errno codes, service errors, the not-found classification |
| stat_tree.dfy | StatTree | the faulty disk's read calls, `doGetStat` and its helpers, `mayHaveChildren`, a reference stat of a tree |
| fs_options.dfy | FsOptions | configured defaults and the `doGet*` option resolvers |
| disk.dfy | Disk | the write primitives (`writeFile`, `mkdirs`, `rmdir`, `remove`, `utimes`, `mv`, `fs.copy`) on the tree |
| filesystem_node.dfy | FileSystemNode | the service operations |
| filesystem_properties.dfy | FileSystemProperties | lemmas about the operations |
| text_match.dfy | TextMatch | lower-casing, substring and fuzzy tests, with reference definitions |
| file_search.dfy | FileSearch | search options, the ignore filter, `findGitIgnore`, the walk, `find` |
| file_search_properties.dfy | FileSearchProperties | a reference list of searchable files and lemmas relating `find` to it |

## Model

| member | source | states |
|---|---|---|
| FsOptions.EffectiveLaws | packages/filesystem/src/node/node-filesystem.ts:26-31 | the defaults are utf8 / no overwrite / recursive / move to trash; no per-call options leaves the configuration unchanged; resolving twice is the same as once; fully given options do not depend on the configuration; new-file content defaults to the empty string |
| StatTree.OsStat | packages/filesystem/src/node/node-filesystem.ts:309 | a successful stat call reports the node at the path; failures are errno errors |
| StatTree.ReadDir | packages/filesystem/src/node/node-filesystem.ts:344 | a successful listing is a directory's entries in listing order |
| StatTree.ReadFile | packages/filesystem/src/node/node-filesystem.ts:68-73 | a read succeeds exactly when a file is at the path and no fault is there, and yields that file's content |
| StatTree.DoGetStat | packages/filesystem/src/node/node-filesystem.ts:307-322 | the result is "not found" exactly when the read fails with a not-found code; other failures propagate; a found stat carries the path, the mtime and the kind of the node, the size of a file, and no children at depth 0 |
| StatTree.StatAt | packages/filesystem/src/node/node-filesystem.ts:308-313 | a stat is only built for a path the stat call found |
| StatTree.DoGetChildren | packages/filesystem/src/node/node-filesystem.ts:343-354 | children are only read from a listing that succeeded, and there are no more of them than listed entries |
| StatTree.CollectChildren | packages/filesystem/src/node/node-filesystem.ts:346-353 | every child stat belongs to a listed name |
| StatTree.ChildrenKeepFound | packages/filesystem/src/node/node-filesystem.ts:346-353 | every listed child whose stat is found is kept, no child answering "not found" appears, and the kept children are the found ones as an in-order subsequence of the listing |
| StatTree.DoGetStatIsStatOf | packages/filesystem/src/node/node-filesystem.ts:307-354 | with no fault at or below the path, the stat read equals the stat computed straight from the tree: every entry, in listing order, to the requested depth |
| StatTree.ChildrenAreStatsOf | packages/filesystem/src/node/node-filesystem.ts:343-354 | with no fault, the children are the reference stats of the entries, one level shallower |
| StatTree.DirectoryStatListsEntries | packages/filesystem/src/node/node-filesystem.ts:333-354 | a fault-free directory read one level deep or more has one child per entry, in listing order, each at the entry's path |
| StatTree.StatWithoutFault | packages/filesystem/src/node/node-filesystem.ts:307-322 | with no fault at the path, a shallow stat finds what the tree holds, answers "not found" exactly for a missing path, and ENOTDIR exactly for a path through a file |
| StatTree.StatWithFault | packages/filesystem/src/node/node-filesystem.ts:314-320 | a failing stat call gives "not found" for ENOENT, EACCES, EBUSY and EPERM, and propagates any other code |
| StatTree.MayHaveChildren | packages/filesystem/src/node/node-filesystem.ts:356-388 | answering "no children" means the path was read, and for a directory that the one-level stat found it with no children |
| StatTree.MayHaveChildrenCases | packages/filesystem/src/node/node-filesystem.ts:356-388 | a path that is unreadable or not found may have children; a file has none; a fault-free directory may have children exactly when it has an entry |
| Disk.Mkdirs | packages/filesystem/src/node/node-filesystem.ts:223 | success leaves a directory at the path and keeps the root's mtime; failures are errno errors |
| Disk.MkdirsSucceeds | packages/filesystem/src/node/node-filesystem.ts:204 | creating a missing path, or one that is already a directory, succeeds |
| Disk.MkdirsFrame | packages/filesystem/src/node/node-filesystem.ts:204 | creating directories changes nothing that existed, except the ancestors along the path, and adds nothing outside the path |
| Disk.WriteFile | packages/filesystem/src/node/node-filesystem.ts:94 | a write needs an existing parent directory and no directory at the path, and puts a file of the given content there |
| Disk.Rmdir | packages/filesystem/src/node/node-filesystem.ts:138 | only an empty directory other than the root is removed, and nothing else changes |
| Disk.Remove | packages/filesystem/src/node/node-filesystem.ts:265 | a missing path is not an error; otherwise the node and its subtree are removed and nothing else changes |
| Disk.Utimes | packages/filesystem/src/node/node-filesystem.ts:134 | touching succeeds exactly for an existing path and changes only its mtime |
| Disk.Rename | packages/filesystem/src/node/node-filesystem.ts:153 | a rename onto a different path moves the source node unchanged to the target, after creating the target's parents; it replaces an existing target only with clobber set, only by a node of the same kind, and only an empty directory; renaming a path onto itself changes nothing |
| Disk.CopyTree | packages/filesystem/src/node/node-filesystem.ts:176 | the source is copied with fresh timestamps after the target's parents are created, merged into an existing directory or replacing an existing file; a directory is never copied into itself |
| Disk.Merge | packages/filesystem/src/node/node-filesystem.ts:176 | a merge keeps the kind of both sides and stamps the result; a file merged onto a file is the restamped source |
| Disk.MergeOntoEmpty | packages/filesystem/src/node/node-filesystem.ts:176 | copying a directory onto an empty directory leaves a freshly stamped replica of the source |
| FileSystemNode.GetFileStat | packages/filesystem/src/node/node-filesystem.ts:41-50 | a stat read that fails rejects with that error; rejects with "cannot find" exactly when the stat read answers "not found"; a result carries the path, mtime and kind the stat call reported |
| FileSystemNode.ResolveContent | packages/filesystem/src/node/node-filesystem.ts:57-75 | a stat read that fails rejects with that error; then it rejects a missing path, then a directory, then a failed read, in that order; a result pairs the shallow stat with the file's content |
| FileSystemNode.SetContent | packages/filesystem/src/node/node-filesystem.ts:77-105 | rejects, in this order, a stat failure, a missing file, a directory, a different mtime, and a different size; on success the file holds the new content, stamped now, and the answer is its new stat |
| FileSystemNode.MoveAsWritten | packages/filesystem/src/node/node-filesystem.ts:107-161 | rejects, in this order, a stat failure or a missing source, a stat failure of the target, an existing target without overwrite, and a target of the other kind; success implies the source was found (what each branch leaves at the target and beside it is stated by MoveAsWrittenFrame, MoveEmptyBranch, CopyBranchRelocates and RenameRelocates) |
| FileSystemNode.Move | packages/filesystem/src/node/node-filesystem.ts:107-161 | the same checks in the same order, and for distinct source and target exactly the behaviour as written (what a successful move leaves at the target and beside it is stated by MoveFrame, MoveFileOntoFile, MoveDirOntoEmptyDir and MoveToFreshPath) |
| FileSystemNode.Copy | packages/filesystem/src/node/node-filesystem.ts:163-183 | rejects, in this order, a missing source and an existing target without overwrite; on success the disk is the source copied onto the target |
| FileSystemNode.CreateFile | packages/filesystem/src/node/node-filesystem.ts:185-214 | a stat read that fails rejects with that error; rejects with "already exists" exactly when the path is found; on success a file holding the given content (by default empty) is at the path |
| FileSystemNode.CreateFolder | packages/filesystem/src/node/node-filesystem.ts:216-230 | a stat read that fails rejects with that error; rejects with "already exists" exactly when the path is found; on success a directory is at the path |
| FileSystemNode.TouchFile | packages/filesystem/src/node/node-filesystem.ts:232-249 | a stat read that fails rejects with that error; a missing path is created as an empty file; an existing one keeps its contents and only its mtime changes |
| FileSystemNode.Delete | packages/filesystem/src/node/node-filesystem.ts:251-273 | a stat read that fails rejects with that error; rejects a missing path; on success the path is gone and only its subtree was removed |
| FileSystemNode.GetEncoding | packages/filesystem/src/node/node-filesystem.ts:275-287 | a stat read that fails rejects with that error; rejects a missing path and a directory; otherwise answers the configured encoding, never a per-call one |
| FileSystemProperties.StatOnHealthy | packages/filesystem/src/node/node-filesystem.ts:307-322 | on a disk without faults, a stat read finds the reference stat of an existing path, answers "not found" exactly for a missing path, and fails with ENOTDIR exactly for a path through a file |
| FileSystemProperties.GetFileStatOnHealthy | packages/filesystem/src/node/node-filesystem.ts:41-50 | on a disk without faults, an existing path's stat is its reference stat one level deep, and "cannot find" is answered exactly for a missing path |
| FileSystemProperties.SetContentKeepsValid | packages/filesystem/src/node/node-filesystem.ts:77-105 | setting content keeps the tree well formed and leaves the faults alone |
| FileSystemProperties.MoveAsWrittenKeepsValid | packages/filesystem/src/node/node-filesystem.ts:107-161 | every branch of the move as written keeps the tree well formed |
| FileSystemProperties.MoveKeepsValid | packages/filesystem/src/node/node-filesystem.ts:107-161 | the corrected move keeps the tree well formed |
| FileSystemProperties.CopyKeepsValid | packages/filesystem/src/node/node-filesystem.ts:163-183 | copying keeps the tree well formed |
| FileSystemProperties.CreateFileKeepsValid | packages/filesystem/src/node/node-filesystem.ts:185-214 | creating a file, with its missing parents, keeps the tree well formed |
| FileSystemProperties.CreateFolderKeepsValid | packages/filesystem/src/node/node-filesystem.ts:216-230 | creating a folder keeps the tree well formed |
| FileSystemProperties.TouchFileKeepsValid | packages/filesystem/src/node/node-filesystem.ts:232-249 | touching keeps the tree well formed |
| FileSystemProperties.DeleteKeepsValid | packages/filesystem/src/node/node-filesystem.ts:251-273 | deleting keeps the tree well formed |
| FileSystemProperties.SetContentThenRead | packages/filesystem/src/node/node-filesystem.ts:77-105 | after a successful write, reading the file back yields the written content and the new stat |
| FileSystemProperties.StaleSnapshotRejected | packages/filesystem/src/node/node-filesystem.ts:87-89 | writing again with the snapshot taken before a write is rejected as out of sync on the timestamp |
| FileSystemProperties.FreshSnapshotAccepted | packages/filesystem/src/node/node-filesystem.ts:87-99 | writing again with the stat a write answered is accepted |
| FileSystemProperties.SetContentFrame | packages/filesystem/src/node/node-filesystem.ts:94 | a write changes nothing outside the file's own path and its ancestors |
| FileSystemProperties.MoveOverwriteCheck | packages/filesystem/src/node/node-filesystem.ts:116-119 | without overwrite, a move of an existing source is rejected with "already exists" exactly when the target exists |
| FileSystemProperties.MoveRelocates | packages/filesystem/src/node/node-filesystem.ts:128-159 | in each of the three branches, a successful move of one path to another leaves the source gone and the target present |
| FileSystemProperties.MoveEmptyBranch | packages/filesystem/src/node/node-filesystem.ts:130-144 | touching an empty target and removing an empty source succeed and leave one empty directory, stamped now, at the target |
| FileSystemProperties.MoveEmptyOntoEmpty | packages/filesystem/src/node/node-filesystem.ts:128-144 | moving an empty directory onto another empty directory with overwrite succeeds, removes the source and leaves the target empty and stamped now |
| FileSystemProperties.MoveOntoItselfRemovesAsWritten | packages/filesystem/src/node/node-filesystem.ts:130-144 | as written, moving an empty directory onto itself with overwrite succeeds and leaves nothing at the path |
| FileSystemProperties.MoveOntoItselfKeepsDirectory | packages/filesystem/src/node/node-filesystem.ts:130-144 | corrected, the same call succeeds and the directory is still there, unchanged |
| FileSystemProperties.MoveOntoItselfKeepsState | packages/filesystem/src/node/node-filesystem.ts:107-161 | corrected, any successful move of a path onto itself leaves the disk as it was |
| FileSystemProperties.MoveToFreshPath | packages/filesystem/src/node/node-filesystem.ts:152-159 | a successful move to a missing path puts the source node there unchanged |
| FileSystemProperties.CopyToFreshPath | packages/filesystem/src/node/node-filesystem.ts:176-181 | a copy to a missing path puts a freshly stamped replica of the source there and leaves the source as it was |
| FileSystemProperties.CopyThenDeleteKeepsSource | packages/filesystem/src/node/node-filesystem.ts:163-183 | deleting a fresh copy leaves the original as it was |
| FileSystemProperties.CopyExistenceCheck | packages/filesystem/src/node/node-filesystem.ts:166-169 | on a disk without faults, copy rejects with "does not exist" exactly when the source is missing |
| FileSystemProperties.DeleteExistenceCheck | packages/filesystem/src/node/node-filesystem.ts:254-257 | on a disk without faults, delete rejects with "does not exist" exactly when the path is missing |
| FileSystemProperties.CreateFileExistenceCheck | packages/filesystem/src/node/node-filesystem.ts:188-191 | on a disk without faults, createFile rejects with "already exists" exactly when the path exists |
| FileSystemProperties.CreateFolderExistenceCheck | packages/filesystem/src/node/node-filesystem.ts:219-222 | on a disk without faults, createFolder rejects with "already exists" exactly when the path exists |
| FileSystemProperties.CreateFileMakesParent | packages/filesystem/src/node/node-filesystem.ts:192-212 | creating a file whose parent is missing succeeds, creates the parent directory, and puts the content (by default empty) at the path |
| FileSystemProperties.CreateFolderMakesPath | packages/filesystem/src/node/node-filesystem.ts:223-228 | creating a missing folder succeeds and leaves a directory at the path |
| FileSystemProperties.DeleteThenNotFound | packages/filesystem/src/node/node-filesystem.ts:251-273 | after a delete, getFileStat of the path rejects with "cannot find", and paths outside the deleted subtree and its ancestors are unchanged |
| FileSystemProperties.TouchExisting | packages/filesystem/src/node/node-filesystem.ts:240-246 | touching an existing path succeeds and changes only its mtime |
| FileSystemProperties.GetEncodingOnHealthy | packages/filesystem/src/node/node-filesystem.ts:275-287 | on a disk without faults, an existing file answers the configured encoding, a directory is rejected as a directory, "does not exist" is answered exactly for a missing path, and a path through a file fails with ENOTDIR |
| FileSystemProperties.MoveFrame | packages/filesystem/src/node/node-filesystem.ts:107-161 | a successful move leaves every path beside both source and target as it was, and creates nothing there |
| FileSystemProperties.MoveAsWrittenFrame | packages/filesystem/src/node/node-filesystem.ts:128-159 | the same for each of the three branches as written: touch and rmdir, copy and delete, and rename |
| FileSystemProperties.RenameFrame | packages/filesystem/src/node/node-filesystem.ts:153-158 | `mv` with parent creation leaves every path beside source and target as it was |
| FileSystemProperties.CopyDeleteFrame | packages/filesystem/src/node/node-filesystem.ts:145-151 | copying onto the target and deleting the source leaves every path beside both as it was |
| FileSystemProperties.MoveFileOntoFile | packages/filesystem/src/node/node-filesystem.ts:107-161 | moving a file onto an existing file with overwrite succeeds; the target then holds the source file unchanged and the source is gone |
| FileSystemProperties.RenameFileOntoFile | packages/filesystem/src/node/node-filesystem.ts:153 | `mv` with clobber puts a file in place of an existing file |
| FileSystemProperties.MoveDirOntoEmptyDir | packages/filesystem/src/node/node-filesystem.ts:145-151 | moving a non-empty directory onto an empty directory with overwrite succeeds; the target then holds the source tree with fresh timestamps and the source is gone |
| FileSystemProperties.CopyBranchTaken | packages/filesystem/src/node/node-filesystem.ts:130-151 | on a disk without faults, a move with overwrite of a non-empty directory onto an empty directory the copy and the delete both succeed, and the move takes the copy-then-delete branch and answers the copy's stat |
| FileSystemProperties.RenameBranchTaken | packages/filesystem/src/node/node-filesystem.ts:122-158 | on a disk without faults, a move with overwrite of a file onto a file the rename succeeds, and the move takes the rename branch |
| FileSystemProperties.CopyOntoEmptyDir | packages/filesystem/src/node/node-filesystem.ts:163-183 | copying a directory onto an empty directory succeeds, leaves a freshly stamped replica at the target and the source as it was |
| FileSystemProperties.CreateFolderFrame | packages/filesystem/src/node/node-filesystem.ts:216-230 | creating a folder leaves every path that is not an ancestor of it as it was, creates nothing there, and leaves existing ancestors as directories |
| FileSystemProperties.CreateFileFrame | packages/filesystem/src/node/node-filesystem.ts:185-214 | creating a file, with any parents it creates, leaves every path beside the file as it was and creates nothing there |
| FileSystemProperties.TouchFileFrame | packages/filesystem/src/node/node-filesystem.ts:232-249 | touching leaves every path beside the touched one as it was and creates nothing there |
| TextMatch.ContainsIffOccurs | packages/file-search/src/node/file-search-service-impl.ts:44 | the substring search succeeds exactly when the query occurs at some position of the text |
| TextMatch.SubsequenceIffEmbedding | packages/file-search/src/node/file-search-service-impl.ts:41 | greedy in-order matching succeeds exactly when the query's characters can be placed at increasing positions of the text |
| TextMatch.GreedyEmbedding | packages/file-search/src/node/file-search-service-impl.ts:41 | when greedy matching succeeds, it yields an increasing placement of the query's characters |
| TextMatch.EmbeddingIsFound | packages/file-search/src/node/file-search-service-impl.ts:41 | any increasing placement makes greedy matching succeed |
| TextMatch.ContainsIsSubsequence | packages/file-search/src/node/file-search-service-impl.ts:41-47 | every substring match is also an in-order match |
| TextMatch.AcceptRule | packages/file-search/src/node/file-search-service-impl.ts:41-47 | with fuzzy matching on, a path is accepted exactly when the fuzzy test passes; with it off, exactly when the lower-cased path contains the lower-cased query |
| TextMatch.EmptyPatternAcceptsAll | packages/file-search/src/node/file-search-service-impl.ts:41-47 | the empty query accepts every path |
| FileSearch.FindGitIgnore | packages/file-search/src/node/file-search-service-impl.ts:85-104 | the answer is the nearest of the base and its ancestors whose gitignore can be read, with that file's text; no nearer one is readable; none is answered only when no ancestor's is readable |
| FileSearch.WalkEntries | packages/file-search/src/node/file-search-service-impl.ts:57-69 | the walk only appends, never past the cap, and only paths below the directory; failures are errno errors |
| FileSearch.WalkChild | packages/file-search/src/node/file-search-service-impl.ts:59-67 | walking one entry only appends, never past the cap, and only the entry itself or paths below it |
| FileSearch.Find | packages/file-search/src/node/file-search-service-impl.ts:25-55 | a failed listing of the base rejects with its error; results never exceed max(limit, 0) and lie strictly below the base; every rejection is an errno error (faults deeper in the walk are covered by FindFailsOnFault and FindFailsExactly) |
| FileSearchProperties.WalkEntriesIsReference | packages/file-search/src/node/file-search-service-impl.ts:57-69 | with no fault below the directory, the walk collects exactly the first cap of the matching files in depth-first listing order, never fails, and stops early only with exactly cap results |
| FileSearchProperties.WalkChildIsReference | packages/file-search/src/node/file-search-service-impl.ts:57-69 | the same for a single entry: a file is offered, a directory is walked |
| FileSearchProperties.WalkReadsAgree | packages/file-search/src/node/file-search-service-impl.ts:58-62 | for a listed entry, its stat fails exactly when a stat fault is there and otherwise reports the listed node; a listed directory's listing fails exactly when a fault is there and otherwise yields its entries |
| FileSearchProperties.FindIsCappedMatches | packages/file-search/src/node/file-search-service-impl.ts:25-55 | with no fault below the base, find answers exactly the first max(limit, 0) matching unpruned files, in depth-first listing order |
| FileSearchProperties.FindBelowLimit | packages/file-search/src/node/file-search-service-impl.ts:25-55 | find succeeds and answers every matching file exactly when the matches do not exceed max(limit, 0) |
| FileSearchProperties.FilesFacts | packages/file-search/src/node/file-search-service-impl.ts:57-69 | the reference walk lists only files, each once, each below a listed entry of the directory, none under a denied name |
| FileSearchProperties.FilesUnderFacts | packages/file-search/src/node/file-search-service-impl.ts:57-69 | the same for the subtree of one entry |
| FileSearchProperties.FindResultsAreMatchingFiles | packages/file-search/src/node/file-search-service-impl.ts:25-69 | with no fault below the base, find succeeds; its results are distinct, are files below the base, pass the match rule, and lie under no denied name |
| FileSearchProperties.ResolveOptionsLaws | packages/file-search/src/node/file-search-service-impl.ts:27-32 | no options give fuzzy matching, a limit of 9007199254740991 and the gitignore honoured; fully given options are taken as they are; each field is resolved independently of the others; resolving resolved options changes nothing |
| FileSearchProperties.WalkEntriesBound | packages/file-search/src/node/file-search-service-impl.ts:37-69 | the walk collects no more paths than the matches it can reach, and stops at the limit only when those matches reach it |
| FileSearchProperties.WalkChildBound | packages/file-search/src/node/file-search-service-impl.ts:37-67 | the same for a single entry |
| FileSearchProperties.WalkEntriesFailsOnFault | packages/file-search/src/node/file-search-service-impl.ts:57-69 | while the reachable matches stay below the limit, the walk fails exactly when it reaches a fault: a failed stat of an unpruned entry or a failed listing of an unpruned directory, at any depth |
| FileSearchProperties.WalkChildFailsOnFault | packages/file-search/src/node/file-search-service-impl.ts:59-67 | the same for a single entry |
| FileSearchProperties.ReachFault | packages/file-search/src/node/file-search-service-impl.ts:57-69 | a fault at an unpruned path below a directory, failing the stat or sitting at a directory, is one the walk reaches |
| FileSearchProperties.FindFailsExactly | packages/file-search/src/node/file-search-service-impl.ts:25-69 | while the matches stay below the limit, find fails exactly when the base cannot be listed or the walk reaches a fault |
| FileSearchProperties.FindFailsOnFault | packages/file-search/src/node/file-search-service-impl.ts:25-69 | while the matches stay below the limit, a failed stat of any unpruned path below the base, or a failed listing of such a directory, rejects find |
| FileSearchProperties.FilterRule | packages/file-search/src/node/file-search-service-impl.ts:71-83 | the filter always denies ".git"; any other name outside the built-in rule is denied exactly when a gitignore is in use and its rules deny the name |
| FileSearchProperties.QueryInBasePathMatchesAll | packages/file-search/src/node/file-search-service-impl.spec.ts:18-23 | when the query occurs in the base path (as "search" does in the fixture directory's path), every file below the base matches, so find answers the whole walk up to the limit |

## Findings

| source | as written | input that shows it | evidently intended | confidence | as-written member | corrected member |
|---|---|---|---|---|---|---|
| packages/filesystem/src/node/node-filesystem.ts:130-144 | the empty-directories branch of `move` runs whenever source and target are both empty directories and overwrite is set, including when they are the same directory: the directory is touched and then removed with `rmdir`, and the move resolves with an undefined stat | `move("file:///a", "file:///a", { overwrite: true })` with `/a` an empty directory | moving a path onto itself leaves it in place, as the rename branch does for every other kind of path | medium; not executed | FileSystemProperties.MoveOntoItselfRemovesAsWritten (about FileSystemNode.MoveAsWritten) | FileSystemProperties.MoveOntoItselfKeepsDirectory (about FileSystemNode.Move) |

## Left out

- FileSystemNode.TouchFile: when creating a missing file fails, the service never settles its promise, because the rejection of `createFile` is not passed on. The model answers `createFile`'s failure instead.
- FileSystemNode.MoveAsWritten: in the copy-then-delete branch, a failing `delete` leaves the promise unsettled. The model answers the delete's error instead.
- FileSystemNode.Settle, FileSystemNode.MoveAsWritten, FileSystemNode.Copy, FileSystemNode.CreateFile, FileSystemNode.CreateFolder and FileSystemNode.TouchFile: the final stat read after a write (node-filesystem.ts:142, 157, 180, 200, 227 and 245) runs inside a callback. If that read throws, the exception is uncaught and the promise never settles. The model rejects with the read's error instead.
- Disk.Rename and FileSystemProperties.MoveToFreshPath: the target is stated to hold the source node unchanged. The `mv` library may fall back to copying and removing, for example across devices, and the copy then carries fresh timestamps. The `mv` library is not part of this model.
- FileSystemNode.Delete: moving to the trash is modelled as removal, which is also what `remove` does. Recovering from the trash is outside the service.
- FileSystemNode.SetContent and FileSystemNode.CreateFile: text encodings are not modelled. Content is a string, and a file's size is its length.
- Disk.Mkdirs, Disk.WriteFile, Disk.CopyTree and Disk.Rename: creating entries leaves the mtimes of the parent directories unchanged. A real disk would update them.
- Disk.CopyTree: `fs.copy`'s merge is simplified. Copying onto a node of the other kind inside a merged directory fails the whole copy. The real library's overwrite and error details are not reproduced.
- Disk: the write primitives ignore read faults. Only the stat, listing and read calls consult them.
- StatTree.OsStat: symbolic links are not modelled, so the difference between following and not following them does not arise.
- FsOptions.Effective: an option passed explicitly as `undefined` counts as absent, as the resolvers do.
- FileSearch.ResolveOptions: the spread of search options in `find` lets an option passed explicitly as `undefined` override the default. Options are `Option` values here, so that case is not modelled.
- TextMatch.Lower: `toLocaleLowerCase` is modelled as lower-casing of ASCII letters only. The fuzzy test's own case folding is modelled the same way.
- FileSearch.Matcher: the gitignore rule language is a parameter. Only how the filter combines its answer with the built-in rule is modelled.
- FileSearch.FindGitIgnore: at the file-system root the source keeps asking for the parent of the root, which is the root again, until the runaway recursion is caught and answers `undefined`. The model stops at the root and answers `None`.
- FileSearch.Find: the search walks paths in native form. Paths are segment sequences, and the text the match rule sees is "/" followed by the segments joined with "/". Converting to URIs is not modelled.
- FileSearchProperties.QueryInBasePathMatchesAll: the fixture directory's contents are not part of this model, so the count of 4 is not reproduced. The lemma shows why every file under the fixture matches.
- Timestamps are natural numbers passed in as `now`. `Date.now() / 1000` and `mtime.getTime()` are floating point and are not modelled.
- The following are left out because they query the process or the environment, or only wire things up: `exists`, `getRoots`, `getCurrentUserHome`, `dispose`, logging, dependency injection, and URI conversion.
- Asynchrony and concurrent changes to the disk by other processes are left out. Each operation is one atomic step on the state.
- `isErrnoException` is modelled as "the error carries an errno code" (`Errors.IsErrnoException`). Errors without a code do not arise in the model except as service errors.
