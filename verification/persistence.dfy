/** What one SaveRecordingAsync call does, stated declaratively: admission, the three write
    attempts with their growing back-off, cancellation during a back-off, the spill of the
    payload to the backup buffer when every attempt failed, and the notification and rotation
    that follow a successful write. Every answer the environment gives (write outcomes,
    cancellations, the clock, the directory listing) comes in through SaveEnvironment. */
module Persistence {
  import opened ArchiveTypes
  import opened FilenameSanitizer
  import opened ArchiveStore

  const MAX_RETRY_ATTEMPTS := 3
  const RETRY_DELAY_MS := 500

  /** The settings the manager exposes in the editor. The size limit is held in bytes:
      `maxFileSizeMB * 1024 * 1024`. */
  datatype ArchiveSettings = ArchiveSettings(
    maxArchivedFiles: int32,
    maxFileSizeBytes: int,
    enableFileRotation: bool,
    invalidFileNameChars: seq<char>)

  /** The answers the environment gives to one save.
      `writeOk[k]`: the (k+1)-th File.WriteAllBytes completed;
      `delayCanceled[k]`: the token fired during the back-off after attempt k+1;
      `nameStamp`: the clock as yyyyMMdd_HHmmss, used for a missing file name;
      `timeOfDay`: the clock as HH:mm:ss when the notification is queued;
      `sizeText`: the payload size in MB, formatted with two decimals;
      `listing`, `deleteOk`: the directory scan and delete outcomes seen by rotation. */
  datatype SaveEnvironment = SaveEnvironment(
    writeOk: seq<bool>,
    delayCanceled: seq<bool>,
    nameStamp: string,
    timeOfDay: string,
    sizeText: string,
    listing: Option<seq<FileEntry>>,
    deleteOk: seq<bool>)

  /** How the returned Task ends: with a result, cancelled, or faulted by an exception. */
  datatype Completion = RanToCompletion(saved: bool) | Canceled | Faulted

  /** The observable trace of one save: how its task ended, how many writes it tried, the
      back-off delays it requested (in milliseconds, in order), the notification it queued,
      whether it spilled the payload to the backup buffer, and the rotation it ran. */
  datatype SaveRun = SaveRun(
    completion: Completion,
    attempts: nat,
    delays: seq<int>,
    notice: Option<string>,
    spilled: bool,
    rotation: Option<RotationResult>)

  /** The run of a save that is turned away before any I/O. */
  const REJECTED := SaveRun(RanToCompletion(false), 0, [], None, false, None)

  /** A payload is accepted when it is non-empty and within the size limit. */
  predicate Admitted(data: Payload, maxFileSizeBytes: int)
  {
    0 < |data| <= maxFileSizeBytes
  }

  /** The back-off delays of the first `n` retries: 500 ms, then 1000 ms, ... */
  function Backoffs(n: nat): (delays: seq<int>)
    ensures |delays| == n
    ensures forall i :: 0 <= i < n ==> delays[i] == RETRY_DELAY_MS * (i + 1)
  {
    if n == 0 then [] else Backoffs(n - 1) + [RETRY_DELAY_MS * n]
  }

  /** The notification text for a saved file. */
  function SavedMessage(name: string, sizeText: string): string
  {
    "\U{2705} Saved: " + name + "\nSize: " + sizeText + "MB"
  }

  /** The file name a save writes to. */
  function TargetName(settings: ArchiveSettings, filename: string, env: SaveEnvironment): string
  {
    Sanitize(filename, env.nameStamp, settings.invalidFileNameChars)
  }

  /** SaveRecordingAsync. With `s` the first attempt whose write succeeds and `c` the first
      back-off that is cancelled, the save succeeds when a write succeeds before any back-off
      is cancelled, is cancelled when a back-off is cancelled first, and otherwise spills the
      payload after the third failed write and returns false. A missing archive folder makes
      Path.Combine throw before the first attempt. */
  function SaveSpec(settings: ArchiveSettings, folder: Option<string>, data: Payload, filename: string,
                    env: SaveEnvironment): SaveRun
  {
    if !Admitted(data, settings.maxFileSizeBytes) then REJECTED
    else if folder.None? then SaveRun(Faulted, 0, [], None, false, None)
    else
      var s := FirstWith(env.writeOk, true, MAX_RETRY_ATTEMPTS);
      var c := FirstWith(env.delayCanceled, true, MAX_RETRY_ATTEMPTS - 1);
      if s < MAX_RETRY_ATTEMPTS && s <= c then
        var rotation :=
          if settings.enableFileRotation then Some(PlanRotation(env.listing, settings.maxArchivedFiles, env.deleteOk))
          else None;
        SaveRun(RanToCompletion(true), s + 1, Backoffs(s),
                Some(SavedMessage(TargetName(settings, filename, env), env.sizeText)), false, rotation)
      else if c < MAX_RETRY_ATTEMPTS - 1 then
        SaveRun(Canceled, c + 1, Backoffs(c + 1), None, false, None)
      else
        SaveRun(RanToCompletion(false), MAX_RETRY_ATTEMPTS, Backoffs(MAX_RETRY_ATTEMPTS - 1), None, true, None)
  }

  /** The attempts before the `a`-th all failed and the back-offs after them ran to their end. */
  predicate FailedBefore(env: SaveEnvironment, a: nat)
  {
    (forall k :: 0 <= k < a - 1 ==> !At(env.writeOk, k)) &&
    (forall k :: 0 <= k < a - 1 && k < MAX_RETRY_ATTEMPTS - 1 ==> !At(env.delayCanceled, k))
  }

  /** A save whose `a`-th write is the first to succeed returns true after `a` attempts and
      `a - 1` back-offs, queues the saved notification and then rotates when enabled. */
  lemma SaveWrittenAt(settings: ArchiveSettings, folder: Option<string>, data: Payload, filename: string,
                      env: SaveEnvironment, a: nat)
    requires Admitted(data, settings.maxFileSizeBytes) && folder.Some?
    requires 1 <= a <= MAX_RETRY_ATTEMPTS && FailedBefore(env, a) && At(env.writeOk, a - 1)
    ensures SaveSpec(settings, folder, data, filename, env) ==
      SaveRun(RanToCompletion(true), a, Backoffs(a - 1),
              Some(SavedMessage(TargetName(settings, filename, env), env.sizeText)), false,
              if settings.enableFileRotation then Some(PlanRotation(env.listing, settings.maxArchivedFiles, env.deleteOk))
              else None)
  {
    FirstWithUnique(env.writeOk, true, MAX_RETRY_ATTEMPTS, a - 1);
    var c := FirstWith(env.delayCanceled, true, MAX_RETRY_ATTEMPTS - 1);
    assert a - 1 <= c;
  }

  /** A save whose `a`-th write failed and whose back-off after it was cancelled ends cancelled
      after `a` attempts, with nothing queued or spilled. */
  lemma SaveCanceledAt(settings: ArchiveSettings, folder: Option<string>, data: Payload, filename: string,
                       env: SaveEnvironment, a: nat)
    requires Admitted(data, settings.maxFileSizeBytes) && folder.Some?
    requires 1 <= a < MAX_RETRY_ATTEMPTS && FailedBefore(env, a)
    requires !At(env.writeOk, a - 1) && At(env.delayCanceled, a - 1)
    ensures SaveSpec(settings, folder, data, filename, env) == SaveRun(Canceled, a, Backoffs(a), None, false, None)
  {
    FirstWithUnique(env.delayCanceled, true, MAX_RETRY_ATTEMPTS - 1, a - 1);
  }

  /** A save whose three writes all failed, with no back-off cancelled, spills the payload and
      returns false. */
  lemma SaveSpilledAfterLastAttempt(settings: ArchiveSettings, folder: Option<string>, data: Payload, filename: string,
                                    env: SaveEnvironment)
    requires Admitted(data, settings.maxFileSizeBytes) && folder.Some?
    requires FailedBefore(env, MAX_RETRY_ATTEMPTS + 1)
    ensures SaveSpec(settings, folder, data, filename, env) ==
      SaveRun(RanToCompletion(false), MAX_RETRY_ATTEMPTS, Backoffs(MAX_RETRY_ATTEMPTS - 1), None, true, None)
  {
    FirstWithUnique(env.writeOk, true, MAX_RETRY_ATTEMPTS, MAX_RETRY_ATTEMPTS);
    FirstWithUnique(env.delayCanceled, true, MAX_RETRY_ATTEMPTS - 1, MAX_RETRY_ATTEMPTS - 1);
  }

  /** Admission has no side effects: an empty or oversized payload is refused with false
      before any write, delay, notification, spill or rotation. */
  lemma SaveRejectsInadmissible(settings: ArchiveSettings, folder: Option<string>, data: Payload, filename: string,
                                env: SaveEnvironment)
    ensures var run := SaveSpec(settings, folder, data, filename, env);
      !Admitted(data, settings.maxFileSizeBytes) <==>
      (run.completion == RanToCompletion(false) && run.attempts == 0)
    ensures var run := SaveSpec(settings, folder, data, filename, env);
      run.attempts == 0 ==> run.delays == [] && run.notice.None? && !run.spilled && run.rotation.None?
  {
  }

  /** At most three writes are tried and the k-th back-off waits 500 * k ms; every attempt
      before the last one tried failed, and the back-off after it ran to its end. */
  lemma SaveRetryBounds(settings: ArchiveSettings, folder: Option<string>, data: Payload, filename: string,
                        env: SaveEnvironment)
    ensures var run := SaveSpec(settings, folder, data, filename, env);
      run.attempts <= MAX_RETRY_ATTEMPTS &&
      |run.delays| <= MAX_RETRY_ATTEMPTS - 1 &&
      (run.attempts > 0 ==> |run.delays| == run.attempts - 1 || run.completion == Canceled) &&
      (forall i :: 0 <= i < |run.delays| ==> run.delays[i] == RETRY_DELAY_MS * (i + 1)) &&
      (forall k :: 0 <= k < run.attempts - 1 ==> !At(env.writeOk, k) && !At(env.delayCanceled, k))
  {
  }

  /** The save returns true exactly when one of the writes it tried succeeded, and that write
      is the last one tried. */
  lemma SaveSucceedsIffWriteSucceeds(settings: ArchiveSettings, folder: Option<string>, data: Payload, filename: string,
                                     env: SaveEnvironment)
    ensures var run := SaveSpec(settings, folder, data, filename, env);
      run.completion == RanToCompletion(true) <==> exists k :: 0 <= k < run.attempts && At(env.writeOk, k)
    ensures var run := SaveSpec(settings, folder, data, filename, env);
      run.completion == RanToCompletion(true) ==> At(env.writeOk, run.attempts - 1)
  {
    var run := SaveSpec(settings, folder, data, filename, env);
    if run.completion == RanToCompletion(true) {
      assert At(env.writeOk, run.attempts - 1);
    }
  }

  /** The saved notification, naming the sanitized file, is queued exactly when the save
      returns true, and rotation runs exactly then when it is enabled. */
  lemma SaveNotifiesOnSuccess(settings: ArchiveSettings, folder: Option<string>, data: Payload, filename: string,
                              env: SaveEnvironment)
    ensures var run := SaveSpec(settings, folder, data, filename, env);
      run.notice.Some? <==> run.completion == RanToCompletion(true)
    ensures var run := SaveSpec(settings, folder, data, filename, env);
      run.notice.Some? ==> run.notice.value == SavedMessage(TargetName(settings, filename, env), env.sizeText)
    ensures var run := SaveSpec(settings, folder, data, filename, env);
      run.rotation.Some? <==> run.completion == RanToCompletion(true) && settings.enableFileRotation
  {
  }

  /** The payload goes to the backup buffer exactly when it was admitted, the folder is known,
      all three writes failed and neither back-off was cancelled; the save then returns false. */
  lemma SaveSpillsIffAllWritesFail(settings: ArchiveSettings, folder: Option<string>, data: Payload, filename: string,
                                   env: SaveEnvironment)
    ensures var run := SaveSpec(settings, folder, data, filename, env);
      run.spilled <==>
        Admitted(data, settings.maxFileSizeBytes) && folder.Some? &&
        (forall k :: 0 <= k < MAX_RETRY_ATTEMPTS ==> !At(env.writeOk, k)) &&
        (forall k :: 0 <= k < MAX_RETRY_ATTEMPTS - 1 ==> !At(env.delayCanceled, k))
    ensures var run := SaveSpec(settings, folder, data, filename, env);
      run.spilled ==> run.completion == RanToCompletion(false) && run.attempts == MAX_RETRY_ATTEMPTS
  {
    var run := SaveSpec(settings, folder, data, filename, env);
    if Admitted(data, settings.maxFileSizeBytes) && folder.Some? &&
       (forall k :: 0 <= k < MAX_RETRY_ATTEMPTS ==> !At(env.writeOk, k)) &&
       (forall k :: 0 <= k < MAX_RETRY_ATTEMPTS - 1 ==> !At(env.delayCanceled, k)) {
      FirstWithUnique(env.writeOk, true, MAX_RETRY_ATTEMPTS, MAX_RETRY_ATTEMPTS);
      FirstWithUnique(env.delayCanceled, true, MAX_RETRY_ATTEMPTS - 1, MAX_RETRY_ATTEMPTS - 1);
    }
  }

  /** A cancelled back-off ends the save: the returned Task is cancelled right after a failed write,
      nothing is spilled or queued and no further write is tried. */
  lemma SaveCancelledDuringBackoff(settings: ArchiveSettings, folder: Option<string>, data: Payload, filename: string,
                                   env: SaveEnvironment)
    ensures var run := SaveSpec(settings, folder, data, filename, env);
      run.completion == Canceled ==>
        0 < run.attempts < MAX_RETRY_ATTEMPTS &&
        !At(env.writeOk, run.attempts - 1) && At(env.delayCanceled, run.attempts - 1) &&
        |run.delays| == run.attempts &&
        !run.spilled && run.notice.None? && run.rotation.None?
  {
  }

  /** Every completed save uses the sanitized name, which is well-formed on a platform whose
      invalid characters leave ".dat" and '_' alone. */
  lemma SavedNameWellFormed(settings: ArchiveSettings, filename: string, env: SaveEnvironment)
    requires KeepsExtensionChars(settings.invalidFileNameChars)
    ensures WellFormedName(TargetName(settings, filename, env), settings.invalidFileNameChars)
  {
    SanitizeWellFormed(filename, env.nameStamp, settings.invalidFileNameChars);
  }
}
