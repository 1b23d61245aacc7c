/** The in-memory backup tier of SpeechArchiveManager (backupMemoryBuffer): payloads whose
    writes failed on every attempt, oldest first, bounded by an entry count and a byte budget.
    BackupAppend is the new buffer that AddToBackupBuffer leaves; the lemmas say which bounds
    it keeps and which entries it evicts. */
module BackupBuffer {
  import opened ArchiveTypes

  const MAX_BACKUP_BUFFER_SIZE := 50
  const MAX_BACKUP_TOTAL_SIZE := 100 * 1024 * 1024

  /** The bytes held by the buffer (the LINQ Sum over the entries' lengths). */
  function TotalSize(entries: seq<Payload>): nat
  {
    if entries == [] then 0 else |entries[0]| + TotalSize(entries[1..])
  }

  lemma {:induction false} TotalSizeAppend(entries: seq<Payload>, data: Payload)
    ensures TotalSize(entries + [data]) == TotalSize(entries) + |data|
  {
    if entries == [] {
      assert [data][1..] == [];
    } else {
      assert (entries + [data])[1..] == entries[1..] + [data];
      TotalSizeAppend(entries[1..], data);
    }
  }

  /** The byte-budget loop: drop the oldest entry while the incoming payload does not fit
      and some entry is left. */
  function EvictForBudget(entries: seq<Payload>, incoming: nat): (kept: seq<Payload>)
    ensures |kept| <= |entries| && kept == entries[|entries| - |kept|..]
    ensures TotalSize(kept) + incoming <= MAX_BACKUP_TOTAL_SIZE || kept == []
    decreases |entries|
  {
    if TotalSize(entries) + incoming > MAX_BACKUP_TOTAL_SIZE && |entries| > 0 then
      EvictForBudget(entries[1..], incoming)
    else
      entries
  }

  /** The loop stops as soon as the payload fits: every longer suffix of `entries` is over budget. */
  lemma {:induction false} EvictForBudgetMinimal(entries: seq<Payload>, incoming: nat, j: nat)
    requires j < |entries| - |EvictForBudget(entries, incoming)|
    ensures TotalSize(entries[j..]) + incoming > MAX_BACKUP_TOTAL_SIZE
    decreases |entries|
  {
    if j == 0 {
      assert entries[0..] == entries;
    } else {
      assert entries[1..][j - 1..] == entries[j..];
      EvictForBudgetMinimal(entries[1..], incoming, j - 1);
    }
  }

  /** The buffer after AddToBackupBuffer(data): the count cap evicts the oldest entry when the
      buffer is full, the byte budget evicts further oldest entries, and `data` goes last. */
  function BackupAppend(entries: seq<Payload>, data: Payload): seq<Payload>
  {
    var afterCap := if |entries| >= MAX_BACKUP_BUFFER_SIZE then entries[1..] else entries;
    EvictForBudget(afterCap, |data|) + [data]
  }

  /** The new payload is the newest entry, and the old entries that survive are the newest of
      the previous buffer, contiguous and in their original order. */
  lemma BackupAppendOrder(entries: seq<Payload>, data: Payload)
    ensures var after := BackupAppend(entries, data);
      |after| >= 1 && after[|after| - 1] == data &&
      |after| - 1 <= |entries| && after[..|after| - 1] == entries[|entries| - (|after| - 1)..]
  {
    var afterCap := if |entries| >= MAX_BACKUP_BUFFER_SIZE then entries[1..] else entries;
    var kept := EvictForBudget(afterCap, |data|);
    assert (kept + [data])[..|kept|] == kept;
  }

  /** The count cap: a buffer of at most 50 entries still has at most 50 after an append,
      and a full one loses at least its oldest entry. */
  lemma BackupAppendCount(entries: seq<Payload>, data: Payload)
    ensures |entries| <= MAX_BACKUP_BUFFER_SIZE ==> |BackupAppend(entries, data)| <= MAX_BACKUP_BUFFER_SIZE
    ensures |entries| >= MAX_BACKUP_BUFFER_SIZE ==> |BackupAppend(entries, data)| <= |entries|
  {
  }

  /** The byte budget: a payload within 100 MB leaves at most 100 MB in the buffer; a larger one
      empties the buffer and is still kept, alone. */
  lemma BackupAppendBytes(entries: seq<Payload>, data: Payload)
    ensures |data| <= MAX_BACKUP_TOTAL_SIZE ==> TotalSize(BackupAppend(entries, data)) <= MAX_BACKUP_TOTAL_SIZE
    ensures |data| > MAX_BACKUP_TOTAL_SIZE ==> BackupAppend(entries, data) == [data]
  {
    var afterCap := if |entries| >= MAX_BACKUP_BUFFER_SIZE then entries[1..] else entries;
    TotalSizeAppend(EvictForBudget(afterCap, |data|), data);
  }

  /** Eviction is minimal: past the count cap, keeping even one more of the oldest entries
      would overflow the byte budget. */
  lemma BackupEvictsFewest(entries: seq<Payload>, data: Payload)
    ensures var afterCap := if |entries| >= MAX_BACKUP_BUFFER_SIZE then entries[1..] else entries;
      var survivors := |BackupAppend(entries, data)| - 1;
      forall j :: 0 <= j < |afterCap| - survivors ==> TotalSize(afterCap[j..]) + |data| > MAX_BACKUP_TOTAL_SIZE
  {
    var afterCap := if |entries| >= MAX_BACKUP_BUFFER_SIZE then entries[1..] else entries;
    forall j | 0 <= j < |afterCap| - (|BackupAppend(entries, data)| - 1)
      ensures TotalSize(afterCap[j..]) + |data| > MAX_BACKUP_TOTAL_SIZE
    {
      EvictForBudgetMinimal(afterCap, |data|, j);
    }
  }

  /** The state the buffer keeps between calls: at most 50 entries and at most 100 MB, except
      that a single payload larger than the budget may sit alone. */
  predicate WithinBounds(entries: seq<Payload>)
  {
    |entries| <= MAX_BACKUP_BUFFER_SIZE && (TotalSize(entries) <= MAX_BACKUP_TOTAL_SIZE || |entries| == 1)
  }

  lemma BackupAppendKeepsBounds(entries: seq<Payload>, data: Payload)
    requires WithinBounds(entries)
    ensures WithinBounds(BackupAppend(entries, data))
  {
    BackupAppendCount(entries, data);
    BackupAppendBytes(entries, data);
  }

  /** A sequence of appends, oldest first. */
  function BackupAppendAll(entries: seq<Payload>, payloads: seq<Payload>): seq<Payload>
    decreases |payloads|
  {
    if payloads == [] then entries else BackupAppendAll(BackupAppend(entries, payloads[0]), payloads[1..])
  }

  /** The largest payload for which fifty of them fit the byte budget (2 MB). */
  const SMALL_PAYLOAD := 2 * 1024 * 1024

  lemma {:induction false} TotalSizeOfSmall(entries: seq<Payload>)
    requires forall i :: 0 <= i < |entries| ==> |entries[i]| <= SMALL_PAYLOAD
    ensures TotalSize(entries) <= |entries| * 2097152
  {
    if entries != [] {
      TotalSizeOfSmall(entries[1..]);
    }
  }

  /** Fewer than fifty small entries leave room for one more small payload. */
  lemma SmallEntriesFit(entries: seq<Payload>, data: Payload)
    requires |entries| < MAX_BACKUP_BUFFER_SIZE
    requires forall i :: 0 <= i < |entries| ==> |entries[i]| <= SMALL_PAYLOAD
    requires |data| <= SMALL_PAYLOAD
    ensures EvictForBudget(entries, |data|) == entries
  {
    TotalSizeOfSmall(entries);
  }

  /** With payloads of at most 2 MB only the count cap evicts, so one append keeps the newest 50. */
  lemma SmallAppendKeepsNewest(entries: seq<Payload>, data: Payload)
    requires |entries| <= MAX_BACKUP_BUFFER_SIZE
    requires forall i :: 0 <= i < |entries| ==> |entries[i]| <= SMALL_PAYLOAD
    requires |data| <= SMALL_PAYLOAD
    ensures BackupAppend(entries, data) == LastN(entries + [data], MAX_BACKUP_BUFFER_SIZE)
  {
    var whole := entries + [data];
    if |entries| >= MAX_BACKUP_BUFFER_SIZE {
      assert forall i :: 0 <= i < |entries[1..]| ==> |entries[1..][i]| <= SMALL_PAYLOAD;
      SmallEntriesFit(entries[1..], data);
      assert LastN(whole, MAX_BACKUP_BUFFER_SIZE) == whole[1..];
      assert entries[1..] + [data] == whole[1..];
    } else {
      SmallEntriesFit(entries, data);
    }
  }

  /** After a small append the buffer still holds at most 50 entries of at most 2 MB. */
  lemma SmallAppendStaysSmall(entries: seq<Payload>, data: Payload)
    requires |entries| <= MAX_BACKUP_BUFFER_SIZE
    requires forall i :: 0 <= i < |entries| ==> |entries[i]| <= SMALL_PAYLOAD
    requires |data| <= SMALL_PAYLOAD
    ensures var next := BackupAppend(entries, data);
      |next| <= MAX_BACKUP_BUFFER_SIZE && forall i :: 0 <= i < |next| ==> |next[i]| <= SMALL_PAYLOAD
  {
    var whole := entries + [data];
    var next := LastN(whole, MAX_BACKUP_BUFFER_SIZE);
    SmallAppendKeepsNewest(entries, data);
    var k := |whole| - |next|;
    forall i | 0 <= i < |next| ensures |next[i]| <= SMALL_PAYLOAD {
      assert next[i] == whole[k + i];
      if k + i < |entries| {
        assert whole[k + i] == entries[k + i];
      }
    }
  }

  /** Appending small payloads one by one keeps exactly the newest 50 of everything appended,
      in order: sixty 1-byte payloads leave the last fifty. */
  lemma {:induction false} SmallAppendsKeepNewest(entries: seq<Payload>, payloads: seq<Payload>)
    requires |entries| <= MAX_BACKUP_BUFFER_SIZE
    requires forall i :: 0 <= i < |entries| ==> |entries[i]| <= SMALL_PAYLOAD
    requires forall i :: 0 <= i < |payloads| ==> |payloads[i]| <= SMALL_PAYLOAD
    ensures BackupAppendAll(entries, payloads) == LastN(entries + payloads, MAX_BACKUP_BUFFER_SIZE)
    decreases |payloads|
  {
    if payloads != [] {
      var whole, rest := entries + [payloads[0]], payloads[1..];
      var next := BackupAppend(entries, payloads[0]);
      SmallAppendKeepsNewest(entries, payloads[0]);
      SmallAppendStaysSmall(entries, payloads[0]);
      SmallAppendsKeepNewest(next, rest);
      ShiftFirst(entries, payloads);
      LastNOfAppend(whole, rest, MAX_BACKUP_BUFFER_SIZE);
    }
  }
}
