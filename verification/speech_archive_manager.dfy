/** The SpeechArchiveManager component itself: its settings, the archive folder, the status-line
    queue and the backup buffer as fields, and the operations that update them in place. Each
    method is proved against the specification function of its module: AddToBackupBuffer
    against BackupAppend, UpdateUI against Post, SaveRecordingAsync against SaveSpec. */
module SpeechArchive {
  import opened ArchiveTypes
  import opened FilenameSanitizer
  import opened BackupBuffer
  import opened NotificationQueue
  import opened ArchiveStore
  import opened Persistence

  /** The editor defaults: keep 100 files, accept up to 10 MB, rotate after every save. */
  const DEFAULT_MAX_ARCHIVED_FILES := 100
  const DEFAULT_MAX_FILE_SIZE_BYTES := 10 * 1024 * 1024

  class SpeechArchiveManager {
    const maxArchivedFiles: int32
    const maxFileSizeBytes: int
    const enableFileRotation: bool
    /** What Path.GetInvalidFileNameChars returns on the platform the component runs on. */
    const invalidFileNameChars: seq<char>
    /** Set once at start-up; `None` when no persistent data path was available. */
    var archiveFolderPath: Option<string>
    /** The status lines waiting for display, oldest first. */
    var uiMessageQueue: seq<string>
    /** Payloads that could not be written, oldest first. */
    var backupMemoryBuffer: seq<Payload>

    /** Both bounded collections stay within their bounds between calls. */
    predicate Valid()
      reads this
    {
      |uiMessageQueue| <= MAX_UI_QUEUE_SIZE && WithinBounds(backupMemoryBuffer)
    }

    function Settings(): ArchiveSettings
    {
      ArchiveSettings(maxArchivedFiles, maxFileSizeBytes, enableFileRotation, invalidFileNameChars)
    }

    constructor (maxArchivedFiles: int32, maxFileSizeBytes: int, enableFileRotation: bool,
                 invalidFileNameChars: seq<char>, archiveFolderPath: Option<string>)
      ensures Valid()
      ensures Settings() == ArchiveSettings(maxArchivedFiles, maxFileSizeBytes, enableFileRotation, invalidFileNameChars)
      ensures this.archiveFolderPath == archiveFolderPath
      ensures uiMessageQueue == [] && backupMemoryBuffer == []
    {
      this.maxArchivedFiles := maxArchivedFiles;
      this.maxFileSizeBytes := maxFileSizeBytes;
      this.enableFileRotation := enableFileRotation;
      this.invalidFileNameChars := invalidFileNameChars;
      this.archiveFolderPath := archiveFolderPath;
      uiMessageQueue := [];
      backupMemoryBuffer := [];
    }

    /** A manager with the editor defaults: keep 100 files, accept up to 10 MB, rotate after
        every save. */
    constructor Default(invalidFileNameChars: seq<char>, archiveFolderPath: Option<string>)
      ensures Valid()
      ensures Settings() ==
        ArchiveSettings(DEFAULT_MAX_ARCHIVED_FILES, DEFAULT_MAX_FILE_SIZE_BYTES, true, invalidFileNameChars)
      ensures this.archiveFolderPath == archiveFolderPath
      ensures uiMessageQueue == [] && backupMemoryBuffer == []
    {
      maxArchivedFiles := DEFAULT_MAX_ARCHIVED_FILES;
      maxFileSizeBytes := DEFAULT_MAX_FILE_SIZE_BYTES;
      enableFileRotation := true;
      this.invalidFileNameChars := invalidFileNameChars;
      this.archiveFolderPath := archiveFolderPath;
      uiMessageQueue := [];
      backupMemoryBuffer := [];
    }

    /** Queues a time-stamped status line, dropping the oldest one when 50 are waiting: the
        queue then holds the newest 50 lines ever posted. */
    method UpdateUI(message: string, timeOfDay: string)
      requires Valid()
      modifies this`uiMessageQueue
      ensures Valid()
      ensures uiMessageQueue == Post(old(uiMessageQueue), Stamped(timeOfDay, message))
      ensures uiMessageQueue == LastN(old(uiMessageQueue) + [Stamped(timeOfDay, message)], MAX_UI_QUEUE_SIZE)
    {
      PostKeepsNewest(uiMessageQueue, Stamped(timeOfDay, message));
      if |uiMessageQueue| >= MAX_UI_QUEUE_SIZE {
        uiMessageQueue := uiMessageQueue[1..];
      }
      uiMessageQueue := uiMessageQueue + [Stamped(timeOfDay, message)];
    }

    /** One step of the display loop: takes the oldest waiting line, if any. */
    method TakeMessage() returns (message: Option<string>)
      requires Valid()
      modifies this`uiMessageQueue
      ensures Valid()
      ensures old(uiMessageQueue) == [] ==> message.None? && uiMessageQueue == []
      ensures old(uiMessageQueue) != [] ==>
        message == Some(old(uiMessageQueue)[0]) && old(uiMessageQueue) == [message.value] + uiMessageQueue
    {
      if |uiMessageQueue| > 0 {
        message := Some(uiMessageQueue[0]);
        uiMessageQueue := uiMessageQueue[1..];
      } else {
        message := None;
      }
    }

    /** Keeps a payload whose writes all failed: evicts the oldest entry of a full buffer, then
        the oldest entries while the payload does not fit the byte budget, then appends it. */
    method AddToBackupBuffer(data: Payload)
      requires Valid()
      modifies this`backupMemoryBuffer
      ensures Valid()
      ensures backupMemoryBuffer == BackupAppend(old(backupMemoryBuffer), data)
    {
      var buffer := backupMemoryBuffer;
      if |buffer| >= MAX_BACKUP_BUFFER_SIZE {
        buffer := buffer[1..];
      }
      var currentTotalSize := TotalSize(buffer);
      while currentTotalSize + |data| > MAX_BACKUP_TOTAL_SIZE && |buffer| > 0
        invariant currentTotalSize == TotalSize(buffer)
        invariant BackupAppend(old(backupMemoryBuffer), data) == EvictForBudget(buffer, |data|) + [data]
        decreases |buffer|
      {
        var removed := buffer[0];
        buffer := buffer[1..];
        currentTotalSize := currentTotalSize - |removed|;
      }
      backupMemoryBuffer := buffer + [data];
      BackupAppendKeepsBounds(old(backupMemoryBuffer), data);
    }

    /** Saves one recording: admission, then up to three writes with back-off, the saved
        notification and rotation after the first write that succeeds, the spill to the backup
        buffer after the third failure. The run is the one SaveSpec describes, and the queue
        and buffer change exactly as it says. */
    method SaveRecordingAsync(audioData: Payload, filename: string, env: SaveEnvironment) returns (run: SaveRun)
      requires Valid()
      modifies this`uiMessageQueue, this`backupMemoryBuffer
      ensures Valid()
      ensures run == SaveSpec(Settings(), archiveFolderPath, audioData, filename, env)
      ensures uiMessageQueue ==
        if run.notice.Some? then Post(old(uiMessageQueue), Stamped(env.timeOfDay, run.notice.value))
        else old(uiMessageQueue)
      ensures backupMemoryBuffer ==
        if run.spilled then BackupAppend(old(backupMemoryBuffer), audioData) else old(backupMemoryBuffer)
    {
      if |audioData| == 0 || |audioData| > maxFileSizeBytes {
        return REJECTED;
      }
      var name := Sanitize(filename, env.nameStamp, invalidFileNameChars);
      // The emptiness check that follows sanitizing never fires.
      assert name != [];
      if archiveFolderPath.None? {
        return SaveRun(Faulted, 0, [], None, false, None);
      }
      // The retry loop decides how the save ends; the effects of that ending (the notification
      // and rotation after a write, the spill after the third failure) follow the loop.
      var attempt := 1;
      var delays := [];
      var written, canceled := false, false;
      while attempt <= MAX_RETRY_ATTEMPTS
        invariant 1 <= attempt <= MAX_RETRY_ATTEMPTS + 1
        invariant FailedBefore(env, attempt)
        invariant delays == Backoffs(if attempt <= MAX_RETRY_ATTEMPTS then attempt - 1 else MAX_RETRY_ATTEMPTS - 1)
        invariant !written && !canceled
      {
        if At(env.writeOk, attempt - 1) {
          written := true;
          break;
        }
        if attempt < MAX_RETRY_ATTEMPTS {
          delays := delays + [RETRY_DELAY_MS * attempt];
          assert delays == Backoffs(attempt);
          if At(env.delayCanceled, attempt - 1) {
            canceled := true;
            break;
          }
        }
        attempt := attempt + 1;
      }
      if written {
        var notice := SavedMessage(name, env.sizeText);
        UpdateUI(notice, env.timeOfDay);
        var rotation := None;
        if enableFileRotation {
          var rotated := RotateFiles(env.listing, maxArchivedFiles, env.deleteOk);
          rotation := Some(rotated);
        }
        SaveWrittenAt(Settings(), archiveFolderPath, audioData, filename, env, attempt);
        return SaveRun(RanToCompletion(true), attempt, delays, Some(notice), false, rotation);
      } else if canceled {
        SaveCanceledAt(Settings(), archiveFolderPath, audioData, filename, env, attempt);
        return SaveRun(Canceled, attempt, delays, None, false, None);
      }
      AddToBackupBuffer(audioData);
      SaveSpilledAfterLastAttempt(Settings(), archiveFolderPath, audioData, filename, env);
      return SaveRun(RanToCompletion(false), MAX_RETRY_ATTEMPTS, delays, None, true, None);
    }
  }
}
