# SpeechArchiveManager, modelled in Dafny

SpeechArchiveManager (`Assets/Scripts/SpeechArchiveManager.cs`) archives recorded speech clips
as `.dat` files. A save runs in these steps:

1. The payload is admitted only when it is non-empty and within the size limit.
2. The caller's file name is sanitized.
3. The file is written, with up to three attempts and a linear back-off between them.
4. After a successful write, a time-stamped "Saved" line goes into a bounded status queue.
   When rotation is enabled, the oldest files are then deleted once there are more than
   `maxArchivedFiles`. Rotation stops at the first delete that fails.
5. After the third failed write, the payload is kept in a bounded in-memory backup buffer.

The manager also summarises the archive: its file count and byte total.

The model has one module per part of the component:

| file | module | what it holds |
|---|---|---|
| `archive_types.dfy` | `ArchiveTypes` | Payloads. The abstract answers the environment gives (`At`, `FirstWith`). The "newest n" window `LastN`. |
| `filename_sanitizer.dfy` | `FilenameSanitizer` | ValidateAndSanitizeFilename as pure functions, with its well-formedness, fixed points and idempotence. |
| `backup_buffer.dfy` | `BackupBuffer` | The buffer AddToBackupBuffer leaves, as the function `BackupAppend`, with its count and byte bounds and its minimal FIFO eviction. |
| `notification_queue.dfy` | `NotificationQueue` | The status-line queue UpdateUI feeds, as the function `Post`, with its bounded-FIFO window. |
| `archive_store.dfy` | `ArchiveStore` | The stable `OrderBy` on creation time. The rotation plan and the RotateFilesAsync loop. GetArchiveStats. |
| `persistence.dfy` | `Persistence` | SaveRecordingAsync as a declarative run, `SaveSpec`, with its admission, retry, cancellation, spill and notification properties. |
| `speech_archive_manager.dfy` | `SpeechArchive` | The class `SpeechArchiveManager`. Its fields are the archive folder, the status queue and the backup buffer. Its methods update them in place. |

Each method is proved against a function:

- `AddToBackupBuffer` against `BackupAppend`.
- `UpdateUI` against `Post`.
- `RotateFiles` against `PlanRotation`.
- `SaveRecordingAsync` against `SaveSpec`.

The lemmas then state what the component promises about those functions.

## How the environment enters the model

The disk, the clock and cancellation are not modelled. Their answers are parameters:

- `writeOk[k]` says whether the (k+1)-th `File.WriteAllBytes` succeeded.
- `delayCanceled[k]` says whether the token fired during the back-off after attempt k+1.
- `deleteOk[i]` says whether the i-th `File.Delete` of a rotation succeeded.
- A missing answer reads as a failure or as "not cancelled".
- A directory scan is `Option<seq<FileEntry>>`, where `None` stands for any exception of the scan:
  `Directory.GetFiles` throwing, or a listed file's `FileInfo` throwing because the file went away
  before its length was read (GetArchiveStats, line 239).
  It stands for a .NET array, so it holds at most int.MaxValue files; the lemmas that need this
  bound state it.
- `maxArchivedFiles` is a C# `int`, modelled as `int32`; 32-bit arithmetic on it is written out
  with `Wrap32`.
- The clock readings are plain strings: `yyyyMMdd_HHmmss` for the default name and
  `HH:mm:ss` for status lines.
- The two-decimal size text of the "Saved" line is also a plain string.

A completed task is `RanToCompletion(b)`. A task that ended through the cancellation token is
`Canceled`. A task ended by an exception that escapes `SaveRecordingAsync` (`Path.Combine` on
a missing archive folder) is `Faulted`.

## Behaviour of the code worth knowing

- Only a successful save queues a status line. A rejection, a failed attempt, a spill and a
  rotation error queue nothing; a rotation error is only logged.
- Rotation stops at the first delete that throws, because the `try` surrounds the whole loop;
  the remaining files stay (`RotationStopsAtFirstFailure`).
- With a non-negative maximum and more files than it, a rotation whose planned deletes all
  succeed leaves exactly `maxArchivedFiles` files (`RotationLeavesMaximum`). Conversely, a
  rotation that deletes fewer files than planned reports a failure, and the delete after the
  last one made failed or found no file left (`RotationStopsAtFirstFailure`).
- `filesToDelete` is computed in unchecked 32-bit arithmetic. With a maximum so negative that
  `count - maxArchivedFiles` exceeds int.MaxValue, it wraps to a negative number and rotation
  deletes nothing (`RotationQuotaWraps`, `RotationWrapDeletesNothing`). A negative maximum that
  does not wrap makes the loop index past the sorted list after deleting every file, which
  throws and ends rotation as failed.
- A single payload larger than the 100 MB budget empties the backup buffer and is kept alone;
  that one entry then exceeds the byte budget (`BackupAppendBytes`, `WithinBounds`).
- The emptiness check after sanitizing can never fire: `Sanitize` always returns a non-empty
  name.
- A missing archive folder makes `Path.Combine` throw, so the save faults rather than
  returning false.

## Model

| member | source | states |
|---|---|---|
| `ArchiveTypes.Wrap32` | Assets/Scripts/SpeechArchiveManager.cs:166 | C#'s unchecked `int` result: a value in the 32-bit range is kept, and any other value is moved into that range by a multiple of 2^32. |
| `FilenameSanitizer.Sanitize` | Assets/Scripts/SpeechArchiveManager.cs:129-147 | The sanitized name always ends in ".dat" (in any case) and has 1 to 200 characters, so the emptiness check after it never fires. |
| `FilenameSanitizer.Named` | Assets/Scripts/SpeechArchiveManager.cs:131-132 | The name to sanitize: the caller's name, or "speech_" + the `yyyyMMdd_HHmmss` clock reading + ".dat" when it is null or empty. |
| `FilenameSanitizer.ReplaceChar` | Assets/Scripts/SpeechArchiveManager.cs:135 | One `Replace(c, '_')`: every occurrence of `c` becomes '_', every other character stays where it is. |
| `FilenameSanitizer.EndsWithExtension` | Assets/Scripts/SpeechArchiveManager.cs:137 | `EndsWith(".dat", OrdinalIgnoreCase)`: the last four characters are '.', then 'd', 'a', 't', each in either case. |
| `FilenameSanitizer.WithExtension` | Assets/Scripts/SpeechArchiveManager.cs:137-138 | The name unchanged when it ends in ".dat" in any case, otherwise with ".dat" appended. |
| `FilenameSanitizer.GetExtension` | Assets/Scripts/SpeechArchiveManager.cs:142 | `Path.GetExtension`: searching back from the end, the text from the last '.' to the end, or empty when a directory separator or the start comes first or the '.' is the last character. |
| `FilenameSanitizer.Truncated` | Assets/Scripts/SpeechArchiveManager.cs:140-144 | A name over 200 characters becomes its first `200 - extension length` characters followed by its extension; a shorter one stays. |
| `FilenameSanitizer.ReplaceInvalid` | Assets/Scripts/SpeechArchiveManager.cs:134-135 | Replacing the invalid characters one after the other keeps the length and maps each character to '_' exactly when it is invalid. |
| `FilenameSanitizer.ExtensionIsSuffix` | Assets/Scripts/SpeechArchiveManager.cs:142 | The extension found is a suffix of the name, and when non-empty it is a '.' followed by at least one character. |
| `FilenameSanitizer.ExtensionOfDatName` | Assets/Scripts/SpeechArchiveManager.cs:137-143 | For a name ending in ".dat" in any case, GetExtension is exactly its last four characters, so truncation keeps 196 characters plus the extension. |
| `FilenameSanitizer.TruncatedShape` | Assets/Scripts/SpeechArchiveManager.cs:140-144 | Truncation leaves a name of 200 characters or fewer unchanged. It cuts a longer one to its first 196 characters followed by its last four, still ending in ".dat". |
| `FilenameSanitizer.SanitizeWellFormed` | Assets/Scripts/SpeechArchiveManager.cs:129-147 | On a platform that does not list '_', '.', 'd', 'a' or 't' as invalid, the result ends in ".dat", has at most 200 characters and contains no invalid character. |
| `FilenameSanitizer.SanitizeFixedPoints` | Assets/Scripts/SpeechArchiveManager.cs:129-147 | A name is left unchanged by sanitizing if and only if it is already well-formed. |
| `FilenameSanitizer.SanitizeIdempotent` | Assets/Scripts/SpeechArchiveManager.cs:129-147 | Sanitizing twice gives the same name as sanitizing once, whatever the clock reads the second time. |
| `FilenameSanitizer.SanitizeKeepsPrefix` | Assets/Scripts/SpeechArchiveManager.cs:134-144 | Each of the first 196 characters of a given name survives in place, with invalid characters replaced by '_'. |
| `FilenameSanitizer.SanitizeShortName` | Assets/Scripts/SpeechArchiveManager.cs:134-138 | A name of 1 to 196 characters is only cleaned, with ".dat" appended unless it already ends in it. |
| `FilenameSanitizer.ExtensionNeverReplaced` | Assets/Scripts/SpeechArchiveManager.cs:134-137 | When the cleaned name ends in ".dat", its last four characters are the caller's own: '_' never forms part of ".dat". |
| `FilenameSanitizer.SanitizeTruncatesLongName` | Assets/Scripts/SpeechArchiveManager.cs:140-144 | A name over 200 characters becomes exactly 200, and its first 196 characters are the caller's, cleaned. |
| `FilenameSanitizer.TruncatedTail` | Assets/Scripts/SpeechArchiveManager.cs:137-144 | After ".dat" is added where missing and the name is cut, the last four characters of an over-long name are its own last four when it ended in ".dat", and ".dat" otherwise. |
| `FilenameSanitizer.SanitizeLongNameExtension` | Assets/Scripts/SpeechArchiveManager.cs:137-144 | An over-long name keeps its own extension, in its own case, when it ended in ".dat". Otherwise it ends in ".dat". |
| `FilenameSanitizer.SanitizeDefaultName` | Assets/Scripts/SpeechArchiveManager.cs:131-138 | With no name given, the file is "speech_<timestamp>", cleaned, followed by ".dat". |
| `FilenameSanitizer.PlatformListsKeepExtension` | Assets/Scripts/SpeechArchiveManager.cs:134 | The invalid-character lists of Unix-like platforms and of Windows both leave '_' and ".dat" alone. |
| `BackupBuffer.TotalSize` | Assets/Scripts/SpeechArchiveManager.cs:185 | `backupMemoryBuffer.Sum(arr => arr.Length)`: the bytes held by all buffered payloads. |
| `BackupBuffer.BackupAppend` | Assets/Scripts/SpeechArchiveManager.cs:178-195 | The buffer AddToBackupBuffer leaves: the oldest entry dropped when 50 are held, then the oldest entries dropped while the payload would overflow 100 MB, then the payload appended. |
| `BackupBuffer.EvictForBudget` | Assets/Scripts/SpeechArchiveManager.cs:185-191 | The byte-budget loop keeps a suffix of the buffer: the newest entries, in order. Either the incoming payload then fits the 100 MB budget, or nothing is left. |
| `BackupBuffer.EvictForBudgetMinimal` | Assets/Scripts/SpeechArchiveManager.cs:186-191 | The loop stops at the first fit: every longer suffix would overflow the budget. |
| `BackupBuffer.BackupAppendOrder` | Assets/Scripts/SpeechArchiveManager.cs:178-195 | After an append, the new payload is the last entry. The entries before it are the newest entries of the old buffer, contiguous and in their order. |
| `BackupBuffer.BackupAppendCount` | Assets/Scripts/SpeechArchiveManager.cs:182-193 | A buffer of at most 50 entries still has at most 50 after an append. A full buffer loses at least its oldest entry. |
| `BackupBuffer.BackupAppendBytes` | Assets/Scripts/SpeechArchiveManager.cs:185-193 | A payload within 100 MB leaves at most 100 MB buffered. A larger payload empties the buffer and is kept alone. |
| `BackupBuffer.BackupEvictsFewest` | Assets/Scripts/SpeechArchiveManager.cs:182-191 | Eviction is minimal: past the count cap, keeping one more of the oldest entries would overflow the byte budget. |
| `BackupBuffer.BackupAppendKeepsBounds` | Assets/Scripts/SpeechArchiveManager.cs:178-195 | An append preserves the buffer's invariant: at most 50 entries, and at most 100 MB unless one oversized payload sits alone. |
| `BackupBuffer.SmallEntriesFit` | Assets/Scripts/SpeechArchiveManager.cs:185-191 | Fewer than 50 entries of at most 2 MB leave room for one more such payload, so the byte-budget loop evicts nothing. |
| `BackupBuffer.SmallAppendKeepsNewest` | Assets/Scripts/SpeechArchiveManager.cs:178-195 | With payloads of at most 2 MB, one append keeps exactly the newest 50 entries. |
| `BackupBuffer.SmallAppendStaysSmall` | Assets/Scripts/SpeechArchiveManager.cs:178-195 | After one append of a payload of at most 2 MB, the buffer still holds at most 50 entries, each of at most 2 MB. |
| `BackupBuffer.SmallAppendsKeepNewest` | Assets/Scripts/SpeechArchiveManager.cs:178-195 | Any run of appends of such payloads leaves exactly the newest 50 of all of them, in order. |
| `NotificationQueue.Stamped` | Assets/Scripts/SpeechArchiveManager.cs:203 | The queued line: "[" + the `HH:mm:ss` clock reading + "] " + the message. |
| `NotificationQueue.Post` | Assets/Scripts/SpeechArchiveManager.cs:197-205 | The queue UpdateUI leaves: its oldest line dequeued when 50 are waiting, then the new line enqueued. |
| `NotificationQueue.PostKeepsNewest` | Assets/Scripts/SpeechArchiveManager.cs:197-205 | A post keeps at most 50 lines and puts the new line last. It keeps exactly the newest 50 lines, dropping only the oldest when 50 are waiting. |
| `NotificationQueue.PostAllKeepsNewest` | Assets/Scripts/SpeechArchiveManager.cs:197-205 | After any run of posts, the queue holds exactly the newest 50 (or fewer) lines, in posting order. |
| `ArchiveStore.InsertByCreationPermutes` | Assets/Scripts/SpeechArchiveManager.cs:161-164 | Inserting one file into the ordered list adds exactly that file. |
| `ArchiveStore.InsertByCreationSorted` | Assets/Scripts/SpeechArchiveManager.cs:161-164 | Insertion keeps the list ordered by creation time. |
| `ArchiveStore.InsertByCreationStable` | Assets/Scripts/SpeechArchiveManager.cs:161-164 | An inserted file goes before the files created at the same time, as it came before them in the listing. |
| `ArchiveStore.SortByCreationTime` | Assets/Scripts/SpeechArchiveManager.cs:161-164 | OrderBy on creation time returns a permutation of the listing, ordered by creation time. |
| `ArchiveStore.SortByCreationTimeStable` | Assets/Scripts/SpeechArchiveManager.cs:161-164 | The sort is stable: files created at the same time keep their listing order. |
| `ArchiveStore.RotationQuota` | Assets/Scripts/SpeechArchiveManager.cs:166 | `filesToDelete`: the file count minus `maxArchivedFiles` in unchecked 32-bit `int` arithmetic. |
| `ArchiveStore.PlannedDeletes` | Assets/Scripts/SpeechArchiveManager.cs:166-167 | The number of deletes the loop sets out to make: `filesToDelete`, or none when it is not positive. |
| `ArchiveStore.PlanRotation` | Assets/Scripts/SpeechArchiveManager.cs:149-176 | What a rotation does: an error when the listing throws; nothing within the maximum; otherwise the oldest files in creation order, up to the planned count, stopping at the first failing delete or at the end of the list, with failure when fewer than planned were deleted. |
| `ArchiveStore.PlanRotationDeletesPrefix` | Assets/Scripts/SpeechArchiveManager.cs:161-170 | Whatever the deletes do, the files removed are a prefix of the listing in creation order. |
| `ArchiveStore.PlanRotationStopsAt` | Assets/Scripts/SpeechArchiveManager.cs:166-174 | Suppose the first `done` deletes succeed and the next one fails, runs past the list or is not planned. Then rotation deletes the `done` oldest files, and it reports a failure exactly when `done` is short of the planned count: the 32-bit `filesToDelete`, or none when that is not positive. |
| `ArchiveStore.RotationQuotaWraps` | Assets/Scripts/SpeechArchiveManager.cs:166-167 | For a listing of at most int.MaxValue files, `filesToDelete` is `count - maxArchivedFiles` when that fits an int. Otherwise it is that difference minus 2^32, a negative number, and no delete is planned. |
| `ArchiveStore.RotationWrapDeletesNothing` | Assets/Scripts/SpeechArchiveManager.cs:159-170 | When `count - maxArchivedFiles` exceeds int.MaxValue, rotation deletes nothing and reports no error. |
| `ArchiveStore.RotationWrapExample` | Assets/Scripts/SpeechArchiveManager.cs:159-170 | With one file and a maximum of int.MinValue, the file stays and no error is reported. |
| `ArchiveStore.RotateFiles` | Assets/Scripts/SpeechArchiveManager.cs:149-176 | The rotation loop, bounded by the 32-bit `filesToDelete`, deletes exactly the files the rotation plan names, and reports failure exactly when the plan does. |
| `ArchiveStore.RotationUnderCeiling` | Assets/Scripts/SpeechArchiveManager.cs:159 | With no more files than the maximum, nothing is deleted and no error is reported. |
| `ArchiveStore.RotationDeletesOldest` | Assets/Scripts/SpeechArchiveManager.cs:161-170 | The deleted files come from the listing, in creation order, and none is newer than any file left. |
| `ArchiveStore.RotationStopsAtFirstFailure` | Assets/Scripts/SpeechArchiveManager.cs:166-174 | Every delete made before the last succeeded. The run fails exactly when fewer files than planned (the 32-bit `filesToDelete`, or none when it is not positive) were deleted, and then the next delete failed or no file was left. |
| `ArchiveStore.RotationStableOnTies` | Assets/Scripts/SpeechArchiveManager.cs:161-170 | Among files created at the same time, those deleted come first in the listing and those left come after them. |
| `ArchiveStore.RotationLeavesMaximum` | Assets/Scripts/SpeechArchiveManager.cs:166-170 | For a non-negative maximum and a listing of at most int.MaxValue files: when every planned delete succeeds, nothing fails and exactly `maxArchivedFiles` files are left. |
| `ArchiveStore.TotalBytes` | Assets/Scripts/SpeechArchiveManager.cs:239 | `files.Sum(f => new FileInfo(f).Length)` taken over unbounded integers; `GetArchiveStats` adds the 64-bit overflow check. |
| `ArchiveStore.GetArchiveStats` | Assets/Scripts/SpeechArchiveManager.cs:232-249 | The summary is an error exactly when the scan throws (the listing, or a listed file's `FileInfo`) or the checked 64-bit byte sum overflows. Otherwise it counts every listed file and holds the sum of their lengths. |
| `ArchiveStore.TotalBytesSorted` | Assets/Scripts/SpeechArchiveManager.cs:161-164 | Sorting the listing keeps its byte total. |
| `ArchiveStore.StatsAfterRotation` | Assets/Scripts/SpeechArchiveManager.cs:238-242 | For a non-negative maximum and a listing of at most int.MaxValue files: after a rotation in which every delete succeeds, the summary counts `maxArchivedFiles` files. The bytes deleted plus the bytes left are the bytes there were. |
| `Persistence.Admitted` | Assets/Scripts/SpeechArchiveManager.cs:92-95 | A payload is saved only when it is non-empty and at most the size limit in bytes. |
| `Persistence.SavedMessage` | Assets/Scripts/SpeechArchiveManager.cs:111 | The "Saved" status text: the check-mark, "Saved: ", the sanitized name, then a new line and "Size: " with the size text and "MB". |
| `Persistence.SaveSpec` | Assets/Scripts/SpeechArchiveManager.cs:90-127 | The whole save as one run: rejection of an inadmissible payload; a fault on a missing folder; otherwise the attempts up to the first successful write, a cancelled back-off or the third failure, with the delays, the "Saved" line, the rotation and the spill each happens to produce. |
| `Persistence.Backoffs` | Assets/Scripts/SpeechArchiveManager.cs:121 | The k-th back-off waits 500 * k ms. |
| `Persistence.SaveWrittenAt` | Assets/Scripts/SpeechArchiveManager.cs:106-116 | When the a-th write is the first to succeed, the save returns true after a attempts and a - 1 back-offs. It queues the "Saved" line and rotates when rotation is enabled. |
| `Persistence.SaveCanceledAt` | Assets/Scripts/SpeechArchiveManager.cs:118-121 | When a failed write's back-off is cancelled, the returned Task ends cancelled, with nothing queued, spilled or rotated. |
| `Persistence.SaveSpilledAfterLastAttempt` | Assets/Scripts/SpeechArchiveManager.cs:118-126 | When all three writes fail and no back-off is cancelled, the payload is spilled and the save returns false. |
| `Persistence.SaveRejectsInadmissible` | Assets/Scripts/SpeechArchiveManager.cs:92-95 | A save makes no attempt and returns false if and only if the payload is empty or over the limit. With no attempt there is no delay, notification, spill or rotation. |
| `Persistence.SaveRetryBounds` | Assets/Scripts/SpeechArchiveManager.cs:106-125 | At most three attempts and two back-offs of 500 * k ms. Each attempt before the last failed, and the back-off after it ran to its end. |
| `Persistence.SaveSucceedsIffWriteSucceeds` | Assets/Scripts/SpeechArchiveManager.cs:106-126 | The save returns true if and only if one of the writes it tried succeeded, and that write is the last one tried. |
| `Persistence.SaveNotifiesOnSuccess` | Assets/Scripts/SpeechArchiveManager.cs:110-114 | The "Saved" line naming the sanitized file is queued exactly when the save returns true. Rotation runs exactly then, when enabled. |
| `Persistence.SaveSpillsIffAllWritesFail` | Assets/Scripts/SpeechArchiveManager.cs:118-124 | The payload is spilled if and only if it was admitted, the folder is known, all three writes failed and neither back-off was cancelled. The save then returns false after three attempts. |
| `Persistence.SaveCancelledDuringBackoff` | Assets/Scripts/SpeechArchiveManager.cs:120-121 | A cancelled save stopped during the back-off after a failed write, before the third attempt. It spilled, queued and rotated nothing. |
| `Persistence.SavedNameWellFormed` | Assets/Scripts/SpeechArchiveManager.cs:97-98 | The name a save writes to is well-formed on platforms whose invalid characters leave '_' and ".dat" alone. |
| `SpeechArchive.SpeechArchiveManager.constructor` | Assets/Scripts/SpeechArchiveManager.cs:17-31 | A new manager holds the given settings and folder, and starts with an empty status queue and backup buffer. |
| `SpeechArchive.SpeechArchiveManager.Default` | Assets/Scripts/SpeechArchiveManager.cs:17-24 | A manager built with the editor defaults keeps 100 files, accepts up to 10 MB (10 * 1024 * 1024 bytes) and rotates after every save, starting with an empty queue and buffer. |
| `SpeechArchive.SpeechArchiveManager.UpdateUI` | Assets/Scripts/SpeechArchiveManager.cs:197-205 | The queue becomes the newest 50 of its lines plus the new "[HH:mm:ss] message" line, and stays within 50. |
| `SpeechArchive.SpeechArchiveManager.TakeMessage` | Assets/Scripts/SpeechArchiveManager.cs:212-216 | The oldest waiting line is removed and returned. An empty queue yields nothing and stays empty. |
| `SpeechArchive.SpeechArchiveManager.AddToBackupBuffer` | Assets/Scripts/SpeechArchiveManager.cs:178-195 | The buffer becomes `BackupAppend` of the old buffer and keeps its count and byte bounds. |
| `SpeechArchive.SpeechArchiveManager.SaveRecordingAsync` | Assets/Scripts/SpeechArchiveManager.cs:90-127 | The run is the one the declarative save describes. The queue gains the "Saved" line exactly when the save returns true. The buffer changes exactly when the payload is spilled, as `BackupAppend` says. |

## Left out

- Unity glue is not modelled: `Start`, `OnDestroy`, `Update`, `TestSaveFunction` and the display loop's
  coroutine scheduling. `TakeMessage` models only the dequeue of one step of that loop.
- `SaveRecording` is not modelled: it only starts `SaveRecordingAsync` and discards the returned Task.
- InitializeArchive is not modelled: it is host start-up I/O. The constructor takes the
  archive folder, `None` when start-up found no data path.
- The lock and concurrency are not modelled: each operation runs atomically, as the lock makes it.
  Interleavings of saves in flight are not modelled.
- Wall-clock timing of `Task.Delay` is not modelled: only the requested delays are recorded.
- File contents and paths are not modelled: a write, a delete and a listing are abstract answers.
  `Path.Combine` is modelled only through the missing-folder fault.
- `Persistence.Admitted`: the size limit is an integer byte count, `maxFileSizeMB * 1024 * 1024`.
  The source compares `length / 1048576f` with a float. The two agree whenever that product is a
  whole number and the length is below 2^24 bytes, where the division is exact. Rounding of
  larger sizes is not modelled.
- The two-decimal `F2` formatting of sizes is not modelled: the size text of the "Saved" line is a parameter.
- `ArchiveStore.GetArchiveStats` returns the count and the byte total rather than the formatted
  "Files: n/max / Size: x.xxMB" text. The float MB conversion and the exception message of the
  error text are not modelled.
- The `"*.dat"` filter of `Directory.GetFiles` is not modelled: a listing stands for its result.
- `FileInfo.FullName` is kept as the entry's name.
- `FilenameSanitizer.Sanitize`: strings are sequences of Unicode scalar values, while C#'s `Length`
  and `Substring` count UTF-16 code units, so the 200 and 196 bounds count characters rather
  than UTF-16 units: a name of 150 characters outside the Basic Multilingual Plane is kept
  whole by the model (154 characters with ".dat"), while the source sees 304 units and cuts it to
  98 such characters plus ".dat". The source's cut can also split a surrogate pair, which the
  model cannot represent.
- `FilenameSanitizer.GetExtension` treats both '/' and '\\' as directory separators, as on
  Windows. This cannot change a result: it is only called on names ending in ".dat", and there the
  extension is the last four characters.
