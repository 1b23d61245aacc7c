/** The on-disk side of SpeechArchiveManager, over an abstract directory listing: the
    oldest-first rotation of RotateFilesAsync and the file count and byte total of
    GetArchiveStats. A listing is what `Directory.GetFiles(archiveFolderPath, "*.dat")`
    returned, each file with the creation time and length FileInfo reports; `None` stands
    for a scan that threw: the listing itself, or a listed file's FileInfo when the file went
    away before its length was read. */
module ArchiveStore {
  import opened ArchiveTypes

  datatype FileEntry = FileEntry(fullName: string, creationTime: int, length: nat)

  ghost predicate SortedByCreation(files: seq<FileEntry>)
  {
    forall i, j :: 0 <= i < j < |files| ==> files[i].creationTime <= files[j].creationTime
  }

  /** The files created at time `t`, in their order. */
  function CreatedAt(files: seq<FileEntry>, t: int): seq<FileEntry>
  {
    if files == [] then []
    else if files[0].creationTime == t then [files[0]] + CreatedAt(files[1..], t)
    else CreatedAt(files[1..], t)
  }

  lemma {:induction false} CreatedAtAppend(a: seq<FileEntry>, b: seq<FileEntry>, t: int)
    ensures CreatedAt(a + b, t) == CreatedAt(a, t) + CreatedAt(b, t)
  {
    if a == [] {
      assert a + b == b;
    } else {
      assert (a + b)[1..] == a[1..] + b;
      CreatedAtAppend(a[1..], b, t);
      if a[0].creationTime == t {
        var tail, rest := CreatedAt(a[1..], t), CreatedAt(b, t);
        assert ([a[0]] + tail) + rest == [a[0]] + (tail + rest);
      }
    }
  }

  /** Places `f` before the first file that is not older than it. */
  function InsertByCreation(f: FileEntry, sorted: seq<FileEntry>): (r: seq<FileEntry>)
    ensures |r| == |sorted| + 1
  {
    if sorted == [] || f.creationTime <= sorted[0].creationTime then [f] + sorted
    else [sorted[0]] + InsertByCreation(f, sorted[1..])
  }

  lemma {:induction false} InsertByCreationPermutes(f: FileEntry, sorted: seq<FileEntry>)
    ensures multiset(InsertByCreation(f, sorted)) == multiset([f] + sorted)
  {
    if sorted != [] && f.creationTime > sorted[0].creationTime {
      InsertByCreationPermutes(f, sorted[1..]);
      assert sorted == [sorted[0]] + sorted[1..];
    }
  }

  lemma {:induction false} InsertByCreationSorted(f: FileEntry, sorted: seq<FileEntry>)
    requires SortedByCreation(sorted)
    ensures SortedByCreation(InsertByCreation(f, sorted))
  {
    if sorted != [] && f.creationTime > sorted[0].creationTime {
      var s0, rest := sorted[0], InsertByCreation(f, sorted[1..]);
      InsertByCreationSorted(f, sorted[1..]);
      // The head of `rest` is `f` or the second file, neither older than the first one.
      assert s0.creationTime <= rest[0].creationTime;
      var r := [s0] + rest;
      forall i, j | 0 <= i < j < |r| ensures r[i].creationTime <= r[j].creationTime {
        if i == 0 {
          assert r[j] == rest[j - 1];
        } else {
          assert r[i] == rest[i - 1] && r[j] == rest[j - 1];
        }
      }
    }
  }

  /** An inserted file lands after the older ones and before the others, so among files
      created at the same time it comes first, as it did in the input. */
  lemma {:induction false} InsertByCreationStable(f: FileEntry, sorted: seq<FileEntry>, t: int)
    ensures CreatedAt(InsertByCreation(f, sorted), t) == CreatedAt([f] + sorted, t)
  {
    if sorted != [] && f.creationTime > sorted[0].creationTime {
      var s0, rest := sorted[0], sorted[1..];
      InsertByCreationStable(f, rest, t);
      CreatedAtAppend([s0], InsertByCreation(f, rest), t);
      CreatedAtAppend([f], rest, t);
      CreatedAtAppend([f], sorted, t);
      CreatedAtAppend([s0], rest, t);
      assert sorted == [s0] + rest;
    }
  }

  /** `OrderBy(fi => fi.CreationTime)`: a stable sort by creation time. */
  function SortByCreationTime(files: seq<FileEntry>): (sorted: seq<FileEntry>)
    ensures multiset(sorted) == multiset(files)
    ensures SortedByCreation(sorted)
    ensures |sorted| == |files|
  {
    if files == [] then []
    else
      var rest := SortByCreationTime(files[1..]);
      InsertByCreationPermutes(files[0], rest);
      InsertByCreationSorted(files[0], rest);
      assert files == [files[0]] + files[1..];
      InsertByCreation(files[0], rest)
  }

  /** The sort is stable: files created at the same time keep their listing order. Together
      with the contract of SortByCreationTime this pins the sorted listing down completely. */
  lemma {:induction false} SortByCreationTimeStable(files: seq<FileEntry>, t: int)
    ensures CreatedAt(SortByCreationTime(files), t) == CreatedAt(files, t)
  {
    if files != [] {
      var rest := SortByCreationTime(files[1..]);
      SortByCreationTimeStable(files[1..], t);
      InsertByCreationStable(files[0], rest, t);
      CreatedAtAppend([files[0]], rest, t);
      CreatedAtAppend([files[0]], files[1..], t);
      assert files == [files[0]] + files[1..];
    }
  }

  /** What one rotation did: the files it deleted, in order, and whether an exception ended it
      (logged as a warning and swallowed). */
  datatype RotationResult = RotationResult(deleted: seq<FileEntry>, failed: bool)

  /** `filesToDelete` of RotateFilesAsync: the listing's count minus the maximum, computed in
      unchecked 32-bit arithmetic, so a very negative maximum wraps it round to a negative bound. */
  function RotationQuota(count: nat, maxArchivedFiles: int32): int32
  {
    Wrap32(count - maxArchivedFiles)
  }

  /** The number of deletes the loop sets out to make: the quota, or none when it is not positive. */
  function PlannedDeletes(count: nat, maxArchivedFiles: int32): nat
  {
    var quota := RotationQuota(count, maxArchivedFiles);
    if quota <= 0 then 0 else quota
  }

  /** The files rotation deletes, decided from the listing alone: with more files than
      `maxArchivedFiles`, the oldest `PlannedDeletes` in creation order, up to the first delete
      that fails. `deleteOk[i]` is the outcome of the i-th File.Delete. */
  function PlanRotation(listing: Option<seq<FileEntry>>, maxArchivedFiles: int32, deleteOk: seq<bool>): RotationResult
  {
    match listing
    case None => RotationResult([], true)
    case Some(files) =>
      if |files| <= maxArchivedFiles then RotationResult([], false)
      else
        var sorted := SortByCreationTime(files);
        var planned := PlannedDeletes(|files|, maxArchivedFiles);
        // Indexing past the sorted list (a negative maximum) throws like a failed delete.
        var reachable := if planned <= |sorted| then planned else |sorted|;
        var done := FirstWith(deleteOk, false, reachable);
        RotationResult(sorted[..done], done < planned)
  }

  /** The plan, once the first `done` deletes are known to succeed and the next one is known to
      fail, to be past the sorted list, or not to be needed. */
  lemma PlanRotationStopsAt(files: seq<FileEntry>, maxArchivedFiles: int32, deleteOk: seq<bool>, done: nat)
    requires |files| > maxArchivedFiles
    requires done <= PlannedDeletes(|files|, maxArchivedFiles) && done <= |files|
    requires forall j :: 0 <= j < done ==> At(deleteOk, j)
    requires done == PlannedDeletes(|files|, maxArchivedFiles) || done == |files| || !At(deleteOk, done)
    ensures PlanRotation(Some(files), maxArchivedFiles, deleteOk) ==
      RotationResult(SortByCreationTime(files)[..done], done < PlannedDeletes(|files|, maxArchivedFiles))
  {
    var planned := PlannedDeletes(|files|, maxArchivedFiles);
    var sorted := SortByCreationTime(files);
    var reachable := if planned <= |sorted| then planned else |sorted|;
    FirstWithUnique(deleteOk, false, reachable, done);
    assert PlanRotation(Some(files), maxArchivedFiles, deleteOk) == RotationResult(sorted[..done], done < planned);
  }

  /** Whatever the deletes do, rotation removes a prefix of the files in creation order. */
  lemma PlanRotationDeletesPrefix(files: seq<FileEntry>, maxArchivedFiles: int32, deleteOk: seq<bool>)
    requires |files| > maxArchivedFiles
    ensures var r := PlanRotation(Some(files), maxArchivedFiles, deleteOk);
      |r.deleted| <= |files| && r.deleted == SortByCreationTime(files)[..|r.deleted|]
  {
  }

  /** RotateFilesAsync after its directory scan: sort, then delete from the oldest, stopping
      at the first exception. */
  method RotateFiles(listing: Option<seq<FileEntry>>, maxArchivedFiles: int32, deleteOk: seq<bool>)
    returns (result: RotationResult)
    ensures result == PlanRotation(listing, maxArchivedFiles, deleteOk)
  {
    if listing.None? {
      return RotationResult([], true);
    }
    var files := listing.value;
    if |files| <= maxArchivedFiles {
      return RotationResult([], false);
    }
    var sortedFiles := SortByCreationTime(files);
    var filesToDelete := Wrap32(|sortedFiles| - maxArchivedFiles);
    var deleted := [];
    var i := 0;
    while i < filesToDelete
      invariant 0 <= i <= |sortedFiles| && (i == 0 || i <= filesToDelete)
      invariant forall j :: 0 <= j < i ==> At(deleteOk, j)
      invariant deleted == sortedFiles[..i]
    {
      if i >= |sortedFiles| || !At(deleteOk, i) {
        PlanRotationStopsAt(files, maxArchivedFiles, deleteOk, i);
        return RotationResult(deleted, true);
      }
      deleted := deleted + [sortedFiles[i]];
      i := i + 1;
    }
    PlanRotationStopsAt(files, maxArchivedFiles, deleteOk, i);
    return RotationResult(deleted, false);
  }

  /** With no more files than the maximum, rotation deletes nothing and reports no error. */
  lemma RotationUnderCeiling(files: seq<FileEntry>, maxArchivedFiles: int32, deleteOk: seq<bool>)
    requires |files| <= maxArchivedFiles
    ensures PlanRotation(Some(files), maxArchivedFiles, deleteOk) == RotationResult([], false)
  {
  }

  /** In a list sorted by creation time, nothing before a cut is newer than anything after it. */
  lemma SortedCut(sorted: seq<FileEntry>, d: nat)
    requires SortedByCreation(sorted) && d <= |sorted|
    ensures forall x, y :: x in sorted[..d] && y in sorted[d..] ==> x.creationTime <= y.creationTime
  {
    forall x, y | x in sorted[..d] && y in sorted[d..] ensures x.creationTime <= y.creationTime {
      var i :| 0 <= i < d && sorted[i] == x;
      var j :| 0 <= j < |sorted| - d && sorted[d..][j] == y;
      assert sorted[d + j] == y;
    }
  }

  /** Over the maximum, the deleted files are the oldest ones: taken from the listing, in
      creation order, and none newer than any file left. */
  lemma RotationDeletesOldest(files: seq<FileEntry>, maxArchivedFiles: int32, deleteOk: seq<bool>)
    requires |files| > maxArchivedFiles
    ensures var r := PlanRotation(Some(files), maxArchivedFiles, deleteOk);
      var left := multiset(files) - multiset(r.deleted);
      multiset(r.deleted) <= multiset(files) &&
      SortedByCreation(r.deleted) &&
      (forall x, y :: x in r.deleted && y in left ==> x.creationTime <= y.creationTime)
  {
    var sorted := SortByCreationTime(files);
    var d := |PlanRotation(Some(files), maxArchivedFiles, deleteOk).deleted|;
    assert sorted == sorted[..d] + sorted[d..];
    assert multiset(files) == multiset(sorted[..d]) + multiset(sorted[d..]);
    SortedCut(sorted, d);
  }

  /** Deletion goes file by file from the oldest: every delete before the last one made
      succeeded, and the run is reported as failed exactly when fewer files than planned were
      deleted, in which case the next delete is the one that failed or there was no file left
      to delete. */
  lemma RotationStopsAtFirstFailure(files: seq<FileEntry>, maxArchivedFiles: int32, deleteOk: seq<bool>)
    requires |files| > maxArchivedFiles
    ensures var r := PlanRotation(Some(files), maxArchivedFiles, deleteOk);
      (forall k :: 0 <= k < |r.deleted| ==> At(deleteOk, k)) &&
      (r.failed <==> |r.deleted| < PlannedDeletes(|files|, maxArchivedFiles)) &&
      (r.failed ==> |r.deleted| == |files| || !At(deleteOk, |r.deleted|))
  {
  }

  /** A listing holds at most int.MaxValue files. The quota is then `count - maxArchivedFiles`
      unless that difference exceeds int.MaxValue, which takes a negative maximum; then it wraps
      round to a negative number and no delete is planned. */
  lemma RotationQuotaWraps(count: nat, maxArchivedFiles: int32)
    requires maxArchivedFiles < count <= INT32_MAX
    ensures count - maxArchivedFiles <= INT32_MAX ==>
      RotationQuota(count, maxArchivedFiles) == count - maxArchivedFiles &&
      PlannedDeletes(count, maxArchivedFiles) == count - maxArchivedFiles
    ensures count - maxArchivedFiles > INT32_MAX ==>
      RotationQuota(count, maxArchivedFiles) == count - maxArchivedFiles - 0x1_0000_0000 &&
      PlannedDeletes(count, maxArchivedFiles) == 0
  {
    var d := count - maxArchivedFiles;
    if d > INT32_MAX {
      assert d - INT32_MIN - 0x1_0000_0000 == d - 0x1_0000_0000 - INT32_MIN;
      assert 0 <= d - 0x1_0000_0000 - INT32_MIN < 0x1_0000_0000;
    }
  }

  /** So a maximum far enough below zero makes rotation delete nothing and report no error,
      however many files there are. */
  lemma RotationWrapDeletesNothing(files: seq<FileEntry>, maxArchivedFiles: int32, deleteOk: seq<bool>)
    requires |files| <= INT32_MAX && |files| - maxArchivedFiles > INT32_MAX
    ensures PlanRotation(Some(files), maxArchivedFiles, deleteOk) == RotationResult([], false)
  {
    RotationQuotaWraps(|files|, maxArchivedFiles);
  }

  /** One file and a maximum of int.MinValue: the quota wraps to -2147483647, the loop never
      runs, and the file stays. */
  lemma RotationWrapExample(f: FileEntry, deleteOk: seq<bool>)
    ensures PlanRotation(Some([f]), INT32_MIN, deleteOk) == RotationResult([], false)
  {
    RotationWrapDeletesNothing([f], INT32_MIN, deleteOk);
  }

  /** Ties are broken by listing order: of the files created at any one time, those deleted
      come first in the listing and those left come after them. */
  lemma RotationStableOnTies(files: seq<FileEntry>, maxArchivedFiles: int32, deleteOk: seq<bool>, t: int)
    requires |files| > maxArchivedFiles
    ensures var r := PlanRotation(Some(files), maxArchivedFiles, deleteOk);
      CreatedAt(files, t) == CreatedAt(r.deleted, t) + CreatedAt(SortByCreationTime(files)[|r.deleted|..], t)
  {
    var r := PlanRotation(Some(files), maxArchivedFiles, deleteOk);
    var sorted := SortByCreationTime(files);
    PlanRotationDeletesPrefix(files, maxArchivedFiles, deleteOk);
    var d := |r.deleted|;
    SortByCreationTimeStable(files, t);
    assert sorted == r.deleted + sorted[d..];
    CreatedAtAppend(r.deleted, sorted[d..], t);
  }

  /** When every planned delete succeeds, exactly `maxArchivedFiles` files are left. */
  lemma RotationLeavesMaximum(files: seq<FileEntry>, maxArchivedFiles: int32, deleteOk: seq<bool>)
    requires 0 <= maxArchivedFiles < |files| <= INT32_MAX
    requires forall k :: 0 <= k < |files| - maxArchivedFiles ==> At(deleteOk, k)
    ensures var r := PlanRotation(Some(files), maxArchivedFiles, deleteOk);
      !r.failed && |r.deleted| == |files| - maxArchivedFiles &&
      |multiset(files) - multiset(r.deleted)| == maxArchivedFiles
  {
    var r := PlanRotation(Some(files), maxArchivedFiles, deleteOk);
    var sorted := SortByCreationTime(files);
    RotationQuotaWraps(|files|, maxArchivedFiles);
    FirstWithUnique(deleteOk, false, |files| - maxArchivedFiles, |files| - maxArchivedFiles);
    assert sorted == r.deleted + sorted[|r.deleted|..];
    assert multiset(files) - multiset(r.deleted) == multiset(sorted[|r.deleted|..]);
  }

  const LONG_MAX_VALUE := 0x7FFF_FFFF_FFFF_FFFF

  /** The archive summary: file count and total bytes, or the error text's stand-in. */
  datatype ArchiveStats = ArchiveStats(fileCount: nat, totalBytes: nat) | StatsError

  /** The LINQ Sum over the files' lengths. */
  function TotalBytes(files: seq<FileEntry>): nat
  {
    if files == [] then 0 else files[0].length + TotalBytes(files[1..])
  }

  lemma {:induction false} TotalBytesAppend(a: seq<FileEntry>, b: seq<FileEntry>)
    ensures TotalBytes(a + b) == TotalBytes(a) + TotalBytes(b)
  {
    if a == [] {
      assert a + b == b;
    } else {
      assert (a + b)[1..] == a[1..] + b;
      TotalBytesAppend(a[1..], b);
    }
  }

  /** GetArchiveStats: the count and byte total of a listing; an exception — the scan
      throwing (the listing, or a vanished file's FileInfo.Length), or the checked 64-bit Sum
      overflowing — yields the error result. */
  function GetArchiveStats(listing: Option<seq<FileEntry>>): (stats: ArchiveStats)
    ensures stats.ArchiveStats? <==> listing.Some? && TotalBytes(listing.value) <= LONG_MAX_VALUE
    ensures stats.ArchiveStats? ==> stats.fileCount == |listing.value| && stats.totalBytes == TotalBytes(listing.value)
  {
    match listing
    case None => StatsError
    case Some(files) =>
      var total := TotalBytes(files);
      if total > LONG_MAX_VALUE then StatsError else ArchiveStats(|files|, total)
  }

  lemma {:induction false} TotalBytesInsert(f: FileEntry, sorted: seq<FileEntry>)
    ensures TotalBytes(InsertByCreation(f, sorted)) == f.length + TotalBytes(sorted)
  {
    if sorted != [] && f.creationTime > sorted[0].creationTime {
      TotalBytesInsert(f, sorted[1..]);
    }
  }

  /** Sorting moves files around without changing the byte total. */
  lemma {:induction false} TotalBytesSorted(files: seq<FileEntry>)
    ensures TotalBytes(SortByCreationTime(files)) == TotalBytes(files)
  {
    if files != [] {
      TotalBytesSorted(files[1..]);
      TotalBytesInsert(files[0], SortByCreationTime(files[1..]));
    }
  }

  /** After a rotation in which every delete succeeds, the next summary counts exactly
      `maxArchivedFiles` files, holding the bytes that were not deleted. */
  lemma StatsAfterRotation(files: seq<FileEntry>, maxArchivedFiles: int32, deleteOk: seq<bool>)
    requires 0 <= maxArchivedFiles < |files| <= INT32_MAX
    requires forall k :: 0 <= k < |files| - maxArchivedFiles ==> At(deleteOk, k)
    requires TotalBytes(files) <= LONG_MAX_VALUE
    ensures var r := PlanRotation(Some(files), maxArchivedFiles, deleteOk);
      var stats := GetArchiveStats(Some(SortByCreationTime(files)[|r.deleted|..]));
      stats.ArchiveStats? && stats.fileCount == maxArchivedFiles &&
      TotalBytes(r.deleted) + stats.totalBytes == TotalBytes(files)
  {
    var r := PlanRotation(Some(files), maxArchivedFiles, deleteOk);
    var sorted := SortByCreationTime(files);
    var left := sorted[|r.deleted|..];
    RotationQuotaWraps(|files|, maxArchivedFiles);
    FirstWithUnique(deleteOk, false, |files| - maxArchivedFiles, |files| - maxArchivedFiles);
    assert sorted == r.deleted + left;
    assert TotalBytes(sorted) == TotalBytes(r.deleted) + TotalBytes(left) by {
      TotalBytesAppend(r.deleted, left);
    }
    TotalBytesSorted(files);
  }
}
