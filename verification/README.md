# A verified model of the distributed document store

The system keeps text documents on storage servers and their catalogue on one name server. Several clients edit
one document at a time: each locks a sentence, edits a working copy of it word by word, and commits. This project
models the two servers' state and the codecs between them, and proves what they are for.

## The two servers

**Storage server.** `Engine` describes a server as a value (files with content, undo file and checkpoint list; the
list of open sessions; the snapshot files) and each request handler as a function on it. `StorageServer` is the
imperative form: a class per record, the sessions as a linked list of nodes whose offsets are updated in a loop, the
handlers as methods, each proved to do exactly what the function says. What holds over every run of requests is
proved about the functions:

- `Sentences`: sentence k of a text is a declarative notion (exactly k delimiters before it, first non-space after
  them, up to the next delimiter). The scanner finds exactly that span, the spans tile the text, and replacing one
  sentence leaves the earlier ones alone and moves the later ones.
- `Words`: splitting, joining and inserting words; a terminated sentence stays terminated under any edit, and the
  edited text is the only one with these words, single spaces and this delimiter.
- `LockSafety`: over every run, every open session denotes the sentence it locked; no update is lost; the error
  for invalid bounds cannot occur.
- `WordEdits`: when WRITE_DATA is accepted and what it makes of the working copy; over a run, that the commit writes
  the shown sentence with all of the client's accepted insertions, in order.
- `CommitOrder`: committing a set of sessions in any order gives the same text, each slice replaced by its working
  copy and all other bytes kept.
- `History`, `Snapshots` and `SnapshotNames`: what UNDO and REVERT bring back, over every run, with the exact
  conditions where they fall short.
- `Requests`: for each request exactly when it is carried out, what it then changes, and that it changes nothing else.

**Name server.** `Namespace` describes the table of files and folders as a sequence: lookup as a linear search, the
folder tree, what MOVE makes of the table, and each storage server's load. `Directory` is the state machine over table
and servers, with the theorem over every run. `Catalogue` says for each request exactly when it is granted and what it
then makes of table and counters, in terms of the records alone; `Ownership` draws from that, over every run, that each
record was entered by its owner and that nobody else moves it or takes it away. `FileIndex` (hash chains), `FileCache` (64-entry cache) and
`NameServer` (the flat array with index and cache in step) are the imperative form; every request of the class
`Registry` is proved equal to its step in `Directory`. `Plans` relates the plans of MOVE and DELETE, carried out one
entry at a time, to the table as a whole. `MetadataFile` and `Persistence` save and load the table; `AccessList` and
`Decimals` are the parts of a line.

**Codecs.** `Wire` is the message protocol (build, parse, receive), `Base64` the encoder and decoder.

## Conventions

- A text is a sequence of bytes without NUL. `Wire` alone treats NUL, where a C string would end.
- Each handler is one atomic step. In the code the commit reads its bounds before it takes the file's lock
  (`storage_server/storage_server.c:2431-2436`), and CREATE asks the storage server between two critical sections;
  interleavings inside a handler are not modelled.
- Operations on disk succeed, and allocation does not fail. What a remote server answers is a parameter
  (`storage`), as are the clock, the user name and the result of the access check.
- A `FileId` stands for the file record that a request's name was resolved to, so that a rename does not concern the
  sessions on the file.
- The session chain is a linked list of nodes. The list of file records is a map; the hash chains, the server array
  and the checkpoint array inside a file record are sequences. The table of files and the cache are arrays.
- Integers are unbounded. Where a 64-bit value or a buffer size matters it is written out: the hash, the bounds of a
  session (a `size_t` beyond the text), the widths of fields, lines and messages.

## Where the code and its description differ

- The user guide says that UNDO reverts the latest modification (`README.md:70`). COPY replaces the content without
  refreshing the undo file, so after a COPY it does not; `History.UndoTakesBackLatest` states exactly when it does.
- A checkpoint's snapshot file is named by the file, the second and the sanitized tag, so two checkpoints can share it,
  and the older one then restores the newer content (`History.RevertAfterCollision`). `SnapshotNames.PathsCollide` says
  exactly when they do, `Snapshots.SpacedReverts` holds for every run in which none do, and
  `Snapshots.RevertRestoresExactly` is the exact condition in any run.
- Loading a full metadata file loses the access lists of its last record, because the loop tests for a full table
  after it has read the next line (`MetadataFile.RoundTrip`).
- The Base64 decoder refuses all padding, hence its own encoder's output unless the length is a positive multiple of
  three (`Base64.AcceptsOwn`). A character outside the alphabet is let through in the second half of a group.
- WRITE_COMPLETE adjusts a counter only when the sender's address is the file's; a notice from any other server
  changes the recorded size and no counter (`Namespace.WriteCompleteKeepsLoads` states exactly when they stay exact).

## Model

| member | source | states |
|---|---|---|
| `Sentences.Bounds` | storage_server/storage_server.c:1743-1794 | A span exists exactly for indices from 0 to the number of delimiters, and it is sentence k: first non-space after the k-th delimiter, up to just past the next one or the end |
| `Sentences.GetSentenceBounds` | storage_server/storage_server.c:1743-1794 | The one-pass scanner returns the only span that is sentence k, and fails for every other index |
| `Sentences.SentenceUnique` | storage_server/storage_server.c:1743-1794 | At most one span is sentence k |
| `Sentences.SentencesOrdered` | storage_server/storage_server.c:1743-1794 | Sentences come in the order of their indices without overlap, and only the last can lack a final delimiter |
| `Sentences.SentencesTile` | storage_server/storage_server.c:1743-1794 | The sentences in order, with only white space before and between them, make up the whole text |
| `Sentences.SpliceBefore` | storage_server/storage_server.c:2464-2478 | Replacing a sentence leaves every earlier one, its index and its bytes where they were |
| `Sentences.SpliceAfter` | storage_server/storage_server.c:2396-2420 | Replacing a terminated sentence by a terminated text moves every later one by the change in length, and its index by the delimiters added |
| `Sentences.SpliceAt` | storage_server/storage_server.c:2464-2478 | The replacement begins a sentence with the same index |
| `Words.SplitWords` | storage_server/storage_server.c:1628-1686 | The cursor loop yields the maximal runs of non-space characters, in order |
| `Words.WordsAppend` | storage_server/storage_server.c:1628-1686 | Splitting distributes over concatenation at any point that no word crosses |
| `Words.WordsJoin` | storage_server/storage_server.c:1698-1741 | Splitting what was joined gives the words back |
| `Words.JoinWords` | storage_server/storage_server.c:1698-1741 | Words with single spaces, then the delimiter unless the last word ends in one; the size computed first is exact, so nothing is cut off |
| `Words.ApplyWordEdit` | storage_server/storage_server.c:1796-1879 | The edit of a working copy is the function EditSentence, rejections included |
| `Words.EditInsertsWords` | storage_server/storage_server.c:1796-1879 | An edit is rejected exactly for a negative index or one above count + 1; otherwise the result reads as the old words with the new ones inserted at min(index, count), and the delimiter is kept unless the last word brings its own; words, single spaces and delimiter leave nothing of the text open |
| `Words.NormalUnique` | storage_server/storage_server.c:1698-1741 | Only one text has given words with single spaces and a given delimiter |
| `Words.EditFits` | storage_server/storage_server.c:1813-1817 | A terminated sentence stays terminated under every edit, and no edit makes it begin with white space |
| `Words.EditsCompose` | storage_server/storage_server.c:1796-1879 | Two insertions one behind the other equal one insertion of both |
| `LockSafety.CommitSeenBefore` | storage_server/storage_server.c:2396-2420 | A commit leaves a session on an earlier sentence unchanged, and it still denotes its sentence |
| `LockSafety.CommitSeenAfter` | storage_server/storage_server.c:2408-2416 | For a session on a later sentence the index delta is the true change in the number of delimiters, never negative, and the moved session denotes the same bytes |
| `LockSafety.CommitKeepsInv` | storage_server/storage_server.c:2422-2522 | A commit succeeds and every other session still denotes its sentence |
| `LockSafety.StepKeepsInv` | storage_server/storage_server.c:2239-2522 | Every request keeps: each session denotes a sentence of its file, one session per client, one client per sentence |
| `LockSafety.RunKeepsInv` | storage_server/storage_server.c:2239-2522 | Every run keeps that invariant |
| `LockSafety.SessionsDenoteSentences` | storage_server/storage_server.c:2289-2315 | In every reachable state the scanner, asked for a session's index, returns the session's offsets |
| `LockSafety.SessionsAreDisjoint` | storage_server/storage_server.c:2289-2315 | In every reachable state two sessions have different clients, and on one file different indices and disjoint slices |
| `LockSafety.CommitNeverRefused` | storage_server/storage_server.c:2450-2462 | In every reachable state a commit succeeds if and only if the client has a session; the reply for invalid bounds is unreachable |
| `LockSafety.NoLostUpdate` | storage_server/storage_server.c:2408-2478 | While a session is open its slice holds the bytes it locked, whatever any run of other requests does |
| `LockSafety.CommitReplacesWhatWasShown` | storage_server/storage_server.c:2289-2478 | From lock to commit: the commit replaces exactly the sentence that the lock showed the client, wherever it is by then; if the client sent no words, it puts that sentence back and the content stays as it is |
| `LockSafety.LockGranted` | storage_server/storage_server.c:2239-2346 | A lock is granted if and only if the file exists, may be written, has that sentence, and no other client holds it |
| `LockSafety.LockOpens` | storage_server/storage_server.c:2239-2346 | A lock request ends the client's own session and no other; if granted, one session opens on the requested sentence, with the sentence shown as its working copy |
| `Requests.LockRefusals` | storage_server/storage_server.c:2239-2346 | Which error a refused lock answers: exactly when not found, denied, locked by another client, or no such sentence |
| `WordEdits.DataInserts` | storage_server/storage_server.c:2348-2375 | WRITE_DATA succeeds exactly when the client has a session and the index is from 0 to count + 1; it inserts the words there in that session's working copy, and every other session and file stays as it is |
| `WordEdits.ReadsIsReading` | storage_server/storage_server.c:1796-1879 | What the next edit sees after an edit: the words in order, where a last word that brings a delimiter gives it up |
| `WordEdits.RunEdits` | storage_server/storage_server.c:2348-2375 | Over any run the working copy is the locked sentence with the client's accepted insertions in order, whatever the others do |
| `WordEdits.WrittenUnique` | storage_server/storage_server.c:2348-2375 | The requests of a run determine the text of the working copy |
| `WordEdits.CommitWritesEdits` | storage_server/storage_server.c:2289-2478 | From lock to commit: what is put in place of the shown sentence is that sentence with all accepted insertions of the client, in order |
| `Requests.CommitEndsSession` | storage_server/storage_server.c:2480-2522 | A commit ends the client's session and no other, makes the former content the undo file, and keeps checkpoints and snapshot files |
| `Requests.DisconnectEndsSession` | storage_server/storage_server.c:678-688 | The end of a connection ends exactly the client's session |
| `Requests.RefusedChangesNothing` | storage_server/storage_server.c:2239-2914 | A refused request leaves the state as it was, but for the own session that a well-formed lock request ends |
| `Requests.OtherFilesKept` | storage_server/storage_server.c:2239-2914 | No request changes a file that it is not about |
| `LockSafety.OthersKeepLockedFiles` | storage_server/storage_server.c:2711-2914 | Undo, checkpoint, revert, copy, create and delete leave the whole record of a file with open sessions, and the session list, as they are |
| `CommitOrder.ApplyAnyFirst` | storage_server/storage_server.c:2464-2478 | Applying one of several disjoint edits and shifting the rest leaves the final text the same |
| `CommitOrder.CommitRest` | storage_server/storage_server.c:2396-2420 | After one commit the pending edits of the others are the former ones, shifted by its growth |
| `CommitOrder.ListsExist` | storage_server/storage_server.c:2396-2420 | The pending edits of any set of clients can be put in order of position |
| `CommitOrder.CommitsReplace` | storage_server/storage_server.c:2464-2478 | After commits in any order each locked slice is replaced by its working copy and every other byte is kept |
| `CommitOrder.CommitOrderIrrelevant` | storage_server/storage_server.c:2396-2478 | Two orders of committing the same sessions end in the same content |
| `History.UndoFileIsBeforeLatest` | storage_server/storage_server.c:2480-2498 | In every reachable state undo is available exactly when the latest commit or revert has not been undone, and the undo file is the content before it |
| `History.UndoRestores` | storage_server/storage_server.c:2846-2914 | UNDO succeeds exactly when such a change exists and no sentence is locked; it restores the content before the change, and a second UNDO is refused |
| `Requests.UndoWhen` | storage_server/storage_server.c:2846-2914 | In every reachable state UNDO is carried out exactly for a user with write access, an unlocked file and a change not yet undone; it changes the content and the flag only |
| `History.ChangeThenUndo` | storage_server/storage_server.c:2872-2903 | A commit or revert and a later UNDO cancel out, whatever requests that leave the undo file alone come between |
| `History.UndoTakesBackLatest` | storage_server/storage_server.c:2219-2236 | Right after a modification UNDO restores the former content for every commit and revert, and for a COPY exactly under the stated condition |
| `History.CopyIsNotUndone` | storage_server/storage_server.c:2219-2236 | A file whose only modification is a COPY has nothing to undo |
| `History.CheckpointListIsLatest` | storage_server/storage_server.c:2571-2607 | In every reachable state the list is the latest 32 checkpoints taken, in order, with distinct tags |
| `Requests.CheckpointWhen` | storage_server/storage_server.c:2524-2622 | CHECKPOINT is carried out exactly for a tag new to the file, a user with write access, an unlocked file and a path that fits; content and undo file stay |
| `Requests.CleanTagIs` | storage_server/storage_server.c:2531-2541 | The tag that is used is what fits the buffer without the white space at its ends |
| `Requests.EarlyRefusals` | storage_server/storage_server.c:2544-2569 | Which error UNDO, CHECKPOINT and REVERT answer: exactly when not found, denied or locked |
| `History.CheckpointsRemember` | storage_server/storage_server.c:2571-2607 | While no checkpoint is written over a listed one, every listed snapshot holds the content at the time it was taken |
| `History.RevertRestores` | storage_server/storage_server.c:2758-2785 | In runs in which no checkpoint is written over a listed one, REVERT to a listed tag restores the content of that time, whatever has happened since |
| `Requests.RevertWhen` | storage_server/storage_server.c:2711-2798 | In every reachable state REVERT is carried out exactly for a listed tag with its snapshot file there, a user with write access and an unlocked file; the former content becomes the undo file |
| `History.SnapshotSurvives` | storage_server/storage_server.c:300-316 | Exactly when a listed snapshot survives a further checkpoint |
| `SnapshotNames.PathsCollide` | storage_server/storage_server.c:2576-2592 | Two snapshot paths are equal exactly when file name and second are the same and the sanitized tags are equal |
| `SnapshotNames.LookAlikes` | storage_server/storage_server.c:262-284 | Different tags can be equal once sanitized |
| `SnapshotNames.Sanitize` | storage_server/storage_server.c:262-284 | The loop replaces white space by a dash and other foreign characters by an underscore, up to the size of its buffer |
| `Snapshots.SpacedIsFresh` | storage_server/storage_server.c:2571-2607 | If no two checkpoints of one file name fall into one second with look-alike tags, none is written over a listed one |
| `Snapshots.SpacedReverts` | storage_server/storage_server.c:2758-2785 | In every such run REVERT to a listed tag restores the content of that time |
| `Snapshots.SnapshotIsLastWritten` | storage_server/storage_server.c:2571-2607 | In every run a snapshot file holds what was last written to it and not unlinked since |
| `Snapshots.RevertRestoresExactly` | storage_server/storage_server.c:2758-2785 | In every run REVERT to a listed tag restores the content of that time if and only if that was the last thing written to its file, and not unlinked since |
| `Requests.CopyReplaces` | storage_server/storage_server.c:2027-2237 | COPY is carried out exactly for an unlocked destination and a source that can be read; it replaces the content and nothing else |
| `Requests.CopyReports` | storage_server/storage_server.c:2027-2237 | A failed transfer passes on not-found and denied, all else is an internal error |
| `Requests.CreateEnters` | storage_server/storage_server.c:1444-1484 | CREATE is carried out exactly for a new file, which is empty, without undo file and checkpoints |
| `Requests.DeleteRemoves` | storage_server/storage_server.c:1486-1532 | DELETE is carried out exactly for an unlocked file; the file goes, and exactly its listed snapshot files |
| `History.RevertAfterCollision` | storage_server/storage_server.c:2571-2607 | A run in which REVERT restores the content of another checkpoint with the same file |
| `StorageServer.WriteSession.MoveBehind` | storage_server/storage_server.c:2408-2416 | One session is adjusted as the functional model says, with the clamp to 0 |
| `StorageServer.SessionList.Find` | storage_server/storage_server.c:613-622 | The walk along the list finds the first session of a client |
| `StorageServer.SessionList.Taken` | storage_server/storage_server.c:624-633 | The walk tells whether a sentence is locked |
| `StorageServer.SessionList.Busy` | storage_server/storage_server.c:635-644 | The walk tells whether a file has open sessions |
| `StorageServer.SessionList.DetachNode` | storage_server/storage_server.c:659-676 | Unlinking removes exactly the first session of the client from the list |
| `StorageServer.SessionList.UpdateActiveSessions` | storage_server/storage_server.c:2396-2420 | One pass adjusts every session but the committing one, in place |
| `StorageServer.SessionList.CreateSession` | storage_server/storage_server.c:690-723 | The new session is put before the head of the list |
| `StorageServer.CountSentencesInSpan` | storage_server/storage_server.c:2377-2394 | The number of delimiters in the span, at least one unless it is empty; 0 for a start at or beyond the end |
| `StorageServer.FileRecord.FindRecord` | storage_server/storage_server.c:286-298 | The first checkpoint with the tag |
| `StorageServer.FileRecord.PruneOldest` | storage_server/storage_server.c:300-316 | The loop moves the remaining records down by one, and the path of the oldest is given up for unlinking |
| `StorageServer.FileRecord.AddCheckpoint` | storage_server/storage_server.c:2600-2607 | The new record comes last, after the oldest has made room in a full list; says which file is to be unlinked |
| `StorageServer.Server.WriteLockRequest` | storage_server/storage_server.c:2239-2346 | The handler is the lock step of the state machine, replies included |
| `StorageServer.Server.WriteDataRequest` | storage_server/storage_server.c:2348-2375 | The handler is the edit step |
| `StorageServer.Server.EtirwRequest` | storage_server/storage_server.c:2422-2522 | The handler is the commit step: content, undo file and every other session |
| `StorageServer.Server.DisconnectClient` | storage_server/storage_server.c:678-688 | The end of a connection detaches the client's session |
| `StorageServer.Server.UndoRequest` | storage_server/storage_server.c:2846-2914 | The handler is the undo step |
| `StorageServer.Server.CheckpointRequest` | storage_server/storage_server.c:2524-2622 | The handler is the checkpoint step: the path is built from name, clock and tag, and list and snapshot files are updated |
| `StorageServer.Server.RevertRequest` | storage_server/storage_server.c:2711-2798 | The handler is the revert step |
| `StorageServer.Server.CopyRequest` | storage_server/storage_server.c:2027-2237 | The handler is the copy step, which leaves the undo file alone and passes on two of the other server's error codes |
| `StorageServer.Server.CreateRequest` | storage_server/storage_server.c:1444-1484 | The handler is the create step |
| `StorageServer.Server.DeleteRequest` | storage_server/storage_server.c:1486-1532 | The handler is the delete step, snapshot files included |
| `Text.TrimString` | common/utils.c:166-185 | The two loops compute Trim |
| `Text.TrimIs` | common/utils.c:166-185 | Trim keeps one stretch of the text: what goes is white space at the two ends, and none is left there |
| `Namespace.Find` | name_server/name_server.c:742-768 | The linear search that every lookup is measured against |
| `Namespace.RemoveSwapExact` | name_server/name_server.c:786-862 | Removal by swapping in the last record takes out exactly one record and keeps names distinct |
| `Namespace.NewNameInjective` | name_server/name_server.c:2749-2765 | The prefix substitution of MOVE is injective |
| `Namespace.MovedDistinct` | name_server/name_server.c:2749-2765 | Whatever part of the renames is done, names stay distinct |
| `Namespace.MoveKeepsTree` | name_server/name_server.c:2527-2656 | MOVE keeps every folder's parent an existing folder |
| `Namespace.MoveSafe` | name_server/name_server.c:2527-2656 | After the checks of MOVE no new name collides with a name of the table |
| `Namespace.MoveInTree` | name_server/name_server.c:2527-2560 | After the checks of MOVE the destination is a folder outside the moved subtree |
| `Namespace.MoveCorrect` | name_server/name_server.c:2458-2785 | A granted MOVE puts the source under its own last component into the folder that the client named, gives exactly the source and everything beneath it the new prefix, in place, with new stamps, keeps owner, kind, place, figures, creation time and access lists of every record and all of the others, and keeps names distinct, the folder tree and the loads |
| `Catalogue.MoveGranted` | name_server/name_server.c:2458-2656 | MOVE is granted exactly when the source is in the table, the destination is the top or a folder outside the source, the new path differs, and every record to be moved is the user's, gets a valid and free path and lies on a connected server |
| `Catalogue.MovePlanFails` | name_server/name_server.c:2560-2656 | Otherwise the first record of the table that may not be renamed decides the error |
| `Catalogue.RenameRefused` | name_server/name_server.c:2560-2656 | The error for one record: denied, invalid path, existing path, or no connected server, in that order |
| `Catalogue.MoveOutcome` | name_server/name_server.c:2458-2785 | MOVE is done exactly when granted and confirmed; then the table holds the renamed records in place, otherwise nothing changes |
| `Namespace.RemoveKeepsTree` | name_server/name_server.c:2981-3000 | Removing the longest selected name leaves no folder without its parent |
| `Namespace.DeleteKeepsLoads` | name_server/name_server.c:3003-3015 | Taking a record off the table and off its server's counters keeps the counters exact; they never stop at zero early |
| `Namespace.WriteCompleteKeepsLoads` | name_server/name_server.c:3811-3830 | WRITE_COMPLETE keeps the counters exact if and only if the sender hosts the file, or the size is unchanged, or no connected server hosts it |
| `Namespace.CreateKeepsLoads` | name_server/name_server.c:2241-2247 | Counting a confirmed file on its server keeps the counters exact |
| `Directory.RemoveAllExact` | name_server/name_server.c:786-862 | Removals by name in any order take out exactly the named records, despite the swaps |
| `Directory.RemoveAllKeepsTree` | name_server/name_server.c:2981-3028 | With the longest name first, the folder tree is unbroken after every single removal |
| `Directory.DeleteCorrect` | name_server/name_server.c:2786-3040 | A granted DELETE removes exactly the target and everything beneath it and keeps names distinct, the folder tree and the counters |
| `Catalogue.DeleteGranted` | name_server/name_server.c:2786-2910 | DELETE is granted exactly when the path is valid, the user known, the target in the table, and every record that would go is the user's and, if a file, on a connected server |
| `Catalogue.DeletePlanFails` | name_server/name_server.c:2841-2910 | Otherwise the first record that may not be removed decides the error |
| `Catalogue.DeleteOutcome` | name_server/name_server.c:2786-3040 | DELETE is done exactly when granted and confirmed; then exactly the selected records go, otherwise nothing changes |
| `Catalogue.CreateCorrect` | name_server/name_server.c:2072-2255 | CREATE is done exactly for a valid new name, a known user, a free place, a chosen server and its confirmation; one record is added, a file of that user with size 0 and empty access lists at that server, and counted there; otherwise nothing changes |
| `Catalogue.CreateRefusals` | name_server/name_server.c:2072-2255 | Which error a refused CREATE answers |
| `Catalogue.FolderCorrect` | name_server/name_server.c:2256-2380 | CREATEFOLDER is done exactly for a valid new path in the root or an existing folder, a known user and a free place; one folder of that user is added |
| `Catalogue.CompleteCorrect` | name_server/name_server.c:3802-3842 | WRITE_COMPLETE changes size, words, characters and time of the named record, and the sender's byte counter if the file lies there; nothing else |
| `Catalogue.ConnectCorrect` | name_server/name_server.c:4130-4179 | A server is entered exactly if there is room and none with its address is connected, with the counters of the files that lie there |
| `Catalogue.LostCorrect` | name_server/name_server.c:252-272 | A lost server is no longer connected, and nothing else changes |
| `Directory.StepKeepsGood` | name_server/name_server.c:2072-3040 | Every request, and every notice that the hosting server sends with a size that is not negative, keeps: distinct names, every folder's parent a folder, counters equal to a recount |
| `Directory.RunKeepsGood` | name_server/name_server.c:274-297 | So does every run of them from the empty table |
| `Ownership.EveryRecordEntered` | name_server/name_server.c:2072-2380 | In every run from the empty table, with notices as above, each record was entered by a request of its owner that was carried out, at the recorded time, with its kind and place |
| `Ownership.NobodyElseTakesIt` | name_server/name_server.c:2458-3040 | In every such run a record stays in the table under its name, with its owner and access lists, while its owner asks for no MOVE and no DELETE, whatever other users do |
| `Plans.MovedFinds` | name_server/name_server.c:2749-2765 | When MOVE comes to an entry of its plan, the record is still found under its old name and in its old slot, and its new name is free |
| `Plans.PlanStillTrue` | name_server/name_server.c:2981-3000 | When DELETE comes to an entry, the record and its server are still those found when the plan was made |
| `Plans.OrderedDone` | name_server/name_server.c:2981-3028 | The loop over the longest remaining path follows an order without repetition, longer names first, over exactly the selected records |
| `FileIndex.UpdateNode` | name_server/name_server.c:602-632 | Updating a chain node changes the lookup of its name only |
| `FileIndex.AddNode` | name_server/name_server.c:602-632 | A node put at the head of a chain adds its name only |
| `FileIndex.DropNode` | name_server/name_server.c:436-458 | Unlinking a chain node forgets its name only |
| `FileIndex.Index.Find` | name_server/name_server.c:585-599 | The chain walk returns what the map of all inserted names says |
| `FileIndex.Index.Insert` | name_server/name_server.c:602-632 | One name is mapped to a slot, all others stay |
| `FileIndex.Index.Remove` | name_server/name_server.c:436-458 | One name is forgotten, all others stay |
| `FileCache.UseCached` | name_server/name_server.c:652-682 | A hit moves its name to the front of the recency list |
| `FileCache.UseFree` | name_server/name_server.c:684-738 | A new name in a free entry is put in front |
| `FileCache.UseOldest` | name_server/name_server.c:684-738 | In a full cache a new name replaces exactly the least recently used one |
| `FileCache.RenamedUses` | name_server/name_server.c:476-492 | A rename moves its entry to the front under the new name |
| `FileCache.Cache.Lookup` | name_server/name_server.c:652-681 | A hit is a slot that holds the name, every cached name hits, and the cache refines the recency list |
| `FileCache.Cache.Store` | name_server/name_server.c:684-738 | The name is cached with its slot, and the cache refines the recency list with eviction |
| `FileCache.Cache.Rename` | name_server/name_server.c:476-492 | After the table's rename every entry again points at the slot that holds its name |
| `FileCache.Cache.Drop` | name_server/name_server.c:844-859 | After a removal every entry follows the record that moved, the removed name is not cached, and it leaves the recency list |
| `FileCache.RecencyExists` | name_server/name_server.c:684-738 | Every cache in a legal state has a recency list |
| `NameServer.IndexRemove` | name_server/name_server.c:786-862 | After a removal the index agrees with a linear search of the swapped table |
| `NameServer.IndexRename` | name_server/name_server.c:2749-2765 | After a rename the index agrees with a linear search of the renamed table |
| `NameServer.Registry.Lookup` | name_server/name_server.c:742-768 | Cache, then hash chain, returns exactly what a linear search of the table returns |
| `NameServer.Registry.Remove` | name_server/name_server.c:786-862 | The named record goes, the last one fills its slot, and table, index and cache agree |
| `NameServer.Registry.Rename` | name_server/name_server.c:2749-2765 | Record, index node and cache entry get the new name, and the three agree |
| `NameServer.Registry.CreateRequest` | name_server/name_server.c:2072-2255 | The request is the create step, roll-back included |
| `NameServer.Registry.FolderRequest` | name_server/name_server.c:2256-2380 | The request is the folder step |
| `NameServer.Registry.PlanMove` | name_server/name_server.c:2560-2656 | The plan is the selected entries with their new names, in table order, or the first refusal |
| `NameServer.Registry.CarryOut` | name_server/name_server.c:2749-2765 | Renaming the planned entries one by one reaches the moved table |
| `NameServer.Registry.MoveRequest` | name_server/name_server.c:2458-2785 | The request is the move step, refusals in the order of the code's checks |
| `NameServer.Registry.PlanDelete` | name_server/name_server.c:2841-2910 | The plan is the selected entries with sizes and servers, or the first refusal |
| `NameServer.Longest` | name_server/name_server.c:2984-2997 | The scan finds the last of the longest paths that are left |
| `NameServer.Registry.RemovePlanned` | name_server/name_server.c:2981-3028 | The removal loop ends, and takes the planned records off table, index, cache and counters in an order with longer names first |
| `NameServer.Registry.DeleteRequest` | name_server/name_server.c:2786-3040 | The request is the delete step |
| `NameServer.Registry.WriteComplete` | name_server/name_server.c:3802-3842 | The notice is the completion step |
| `NameServer.Registry.Register` | name_server/name_server.c:4130-4179 | A server is entered, and counted at once, unless one with its address is connected or there are too many |
| `NameServer.Registry.Recount` | name_server/name_server.c:274-297 | The loop computes the number and total size of the files a server hosts |
| `Decimals.ReadNumber` | name_server/name_server.c:1064-1101 | Reading skips white space, takes a sign and the leading digits |
| `MetadataFile.ReadRecord` | name_server/name_server.c:1053-1126 | A record from the parts of its line, in both forms of the line |
| `Decimals.NumberOfDecimal` | name_server/name_server.c:946-994 | A printed number is read back |
| `Decimals.NumberReads` | name_server/name_server.c:1064-1101 | White space, sign and what follows the digits make no difference but for the sign |
| `AccessList.ParseCsv` | name_server/name_server.c:919-944 | The tokens that are valid names, trimmed, without repetition, up to the limit |
| `AccessList.ParsedNames` | name_server/name_server.c:919-944 | From any text: valid, distinct names up to the limit, each a trimmed token; below the limit every token that is valid once trimmed |
| `AccessList.RoundTrip` | name_server/name_server.c:919-944 | A list of valid, distinct names is read back if and only if its text has at most 4095 bytes |
| `MetadataFile.SplitParts` | name_server/name_server.c:1031-1049 | At most 13 parts, empty ones kept |
| `MetadataFile.FieldsBack` | name_server/name_server.c:1051-1126 | A record is restored from its printed fields, the marker for an empty user included |
| `MetadataFile.LineLayout` | name_server/name_server.c:957-976 | The parts of a saved line, in order |
| `MetadataFile.OlderLineAdds` | name_server/name_server.c:1074-1113 | A line of the older form is read as a file with zero counts |
| `MetadataFile.SkippedRecord` | name_server/name_server.c:1051-1054 | A line without a valid name enters nothing, and the access lists behind it go to no record |
| `MetadataFile.LoadRecord` | name_server/name_server.c:1022-1136 | The three lines of a record add it to the table; if it fills the table its access lists are not read |
| `MetadataFile.RoundTrip` | name_server/name_server.c:1014-1136 | Loading what was saved restores every record and both access lists, if and only if the table is not full or its last record's lists are empty |
| `Persistence.Save` | name_server/name_server.c:946-994 | The file written is the text of the table |
| `Persistence.Load` | name_server/name_server.c:996-1141 | The table is what the file says, and the index finds the last record of every name; for distinct names table, index and cache agree |
| `Persistence.SaveThenLoad` | name_server/name_server.c:946-1141 | Saving and loading restore the table with a consistent index, but for the access lists of the record that fills it |
| `Wire.Build` | common/protocol.c:139-174 | The fields joined and terminated; no message for no fields; the computed size is exact |
| `Wire.Parse` | common/protocol.c:72-137 | The first 32 stretches between delimiters, without the final newline |
| `Wire.Receive` | common/protocol.c:239-291 | Up to the first newline within 65535 bytes and not a byte further; a partial message at the end of the stream; nothing for one that is too long |
| `Wire.SplitJoined` | common/protocol.c:72-174 | Splitting undoes joining, wherever empty fields stand |
| `Wire.ParseBuilt` | common/protocol.c:72-174 | Parsing a built message gives the first 32 fields, hence all if and only if there are at most 32 |
| `Wire.ReceiveBuilt` | common/protocol.c:239-291 | A built message is received whole, with the rest of the stream untouched, if and only if it has at most 65535 bytes |
| `Wire.StreamRoundTrip` | common/protocol.c:72-291 | Receiving and parsing a concatenation of messages gives the field lists in order, whatever follows |
| `Base64.Alphabet` | common/utils.c:634-648 | The value of a character and the character of a value are inverse |
| `Base64.LetterInTable` | common/utils.c:630-633 | The letter of a value is its entry in the table of section 4 of RFC 4648 |
| `Base64.Encode` | common/utils.c:650-691 | The output is the encoding of section 4 of RFC 4648, padding included |
| `Base64.EncodingUnique` | common/utils.c:650-691 | A byte string has exactly one such encoding |
| `Base64.Decode` | common/utils.c:693-755 | Refused exactly for a length that is not a positive multiple of four, padding anywhere, or a foreign character in the first half of a group; otherwise every group of letters yields its three bytes |
| `Base64.AcceptsOwn` | common/utils.c:693-755 | The decoder accepts an encoding if and only if the bytes number a positive multiple of three |
| `Base64.DecodesOwn` | common/utils.c:693-755 | What it then gives back is the bytes that were encoded |
| `Base64.EncodeThenDecode` | common/utils.c:650-755 | Encoding and decoding gives the bytes back for a positive multiple of three and a refusal otherwise |
| `Base64.DecodeThenEncode` | common/utils.c:650-755 | Decoding and encoding gives back every text of whole groups over the alphabet |

## Left out

- Threads, locks and condition variables; the request-reply rendezvous between name server and storage server.
- Sockets, logging, listings, READ, STREAM, VIEWCHECKPOINT, LISTCHECKPOINTS and EXEC: they change no modelled state.
- Access control: requests for access, ADDACCESS and REMACCESS, their roll-back, and the cancelling of requests that
  DELETE performs. The access check of a write is a parameter.
- The storage server's own metadata file and its statistics (word counts, access times).
- File names on disk: two logical paths that flatten to one physical name are taken to be different files.
- The renames and deletions that MOVE and DELETE send to storage servers, and the roll-back of renames; only whether
  all were confirmed is a parameter.
- NameServer.Registry.Register: merges the registration with the recount that ends the server's file list (SS_HAS_FILE,
  SS_FILES_DONE); a server does not claim files that another one holds, and the zero counters in between are not modelled.
- The choice of the least loaded server for a new file: the chosen server is a parameter, connected or absent.
- NULL pointers as arguments of the codecs.
- Wrap-around of the cache's clock and of sentence indices, which would take more requests than a server can serve.
- Directory.RunKeepsGood: assumes that WRITE_COMPLETE comes from the hosting server with a size that is not negative;
  without it the counters drift, as Namespace.WriteCompleteKeepsLoads shows.
- MetadataFile.RoundTrip: assumes access lists of at most 4095 bytes as text; AccessList.RoundTrip shows that a longer
  list is not read back.
- Base64.Decode: the bytes after the first character outside the alphabet are left open, as the code leaves the end of
  its buffer unwritten.
