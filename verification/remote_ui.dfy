/** The pure helper logic of gui/qubes_remote_ui.py. */
module RemoteUi {
  import opened PyStr
  import opened SizeFormat
  import opened ArchiveSafety
  import opened BackupListing
  import opened AuditLog
  import opened ProcessOutcome

  /** The code `run_quick` reports for any exception other than a missing
      executable or a timeout. */
  const GenericErrorCode: int := -1

  /** `run_quick(args, timeout)`: the child's own triple when it exited,
      otherwise an empty stdout and an explanatory stderr. */
  function RunQuick(args: seq<string>, timeout: int, outcome: Outcome): (r: Reply)
    requires outcome.NotFound? ==> |args| > 0
    ensures outcome.Exited? ==> r == Reply(outcome.rc, outcome.out, outcome.err)
    ensures !outcome.Exited? ==> r.out == ""
    ensures outcome.NotFound? ==> r.code == NotFoundCode && r.err == "Command not found: " + args[0] + "\n"
    ensures outcome.TimedOut? ==> r.code == TimeoutCode && r.err == "Command timed out after " + IntToStr(timeout) + "s\n"
    ensures outcome.Other? ==> r.code == GenericErrorCode && r.err == outcome.msg
  {
    match outcome
    case Exited(rc, out, err) => Reply(rc, out, err)
    case NotFound => Reply(127, "", "Command not found: " + args[0] + "\n")
    case TimedOut => Reply(124, "", "Command timed out after " + IntToStr(timeout) + "s\n")
    case Other(msg) => Reply(-1, "", msg)
  }

  /** Among the failure outcomes the code alone tells which one happened. */
  lemma RunQuickCodesDistinguish(args: seq<string>, timeout: int, o1: Outcome, o2: Outcome)
    requires !o1.Exited? && !o2.Exited?
    requires o1.NotFound? ==> |args| > 0
    requires o2.NotFound? ==> |args| > 0
    requires RunQuick(args, timeout, o1).code == RunQuick(args, timeout, o2).code
    ensures o1.NotFound? == o2.NotFound? && o1.TimedOut? == o2.TimedOut? && o1.Other? == o2.Other?
  {
  }

  /** `format_file_size(n)` for an integer byte count. */
  function FormatFileSize(n: int): (r: SizeText)
    ensures r.Exact? <==> Abs(n) < KiB
    ensures r.Exact? ==> r.text == ByteText(n)
    ensures r.Scaled? ==> r.unit == SizeUnit(n) && r.unit != B
  {
    var u := SizeUnit(n);
    if u == B then Exact(ByteText(n)) else Scaled(u)
  }

  /** `restore_local_backup(archive_path, restore_dir)` up to the call of
      `extractall`, whose failure (an exception text) is `extractError`.
      `archivePath` and `restoreDir` are the paths as `str(Path(...))`
      prints them. */
  function RestoreLocalBackup(archivePath: string, restoreDir: string, archive: ArchiveFile,
                              extractError: Option<string>): (r: RestoreReport)
    ensures archive.Absent? ==> r == RestoreReport(false, "Archive not found: " + archivePath, false)
    ensures archive.Unreadable? ==> r == RestoreReport(false, "Restore failed: " + archive.error, false)
    ensures archive == Members([]) ==> r == RestoreReport(false, "Archive is empty", false)
    ensures r.extracted <==>
              archive.Members? && |archive.names| > 0
              && forall i :: 0 <= i < |archive.names| ==> !IsUnsafeMember(archive.names[i])
    ensures archive.Members? && |archive.names| > 0 && FirstUnsafe(archive.names).Some? ==>
              !r.ok && r.message == "Unsafe path in archive: " + archive.names[FirstUnsafe(archive.names).value]
    ensures r.ok <==> r.extracted && extractError.None?
    ensures r.ok ==> r.message == "Restored from " + archivePath + " to " + restoreDir
    ensures r.extracted && extractError.Some? ==> r.message == "Restore failed: " + extractError.value
  {
    match archive
    case Absent => RestoreReport(false, "Archive not found: " + archivePath, false)
    case Unreadable(e) => RestoreReport(false, "Restore failed: " + e, false)
    case Members(names) =>
      if |names| == 0 then RestoreReport(false, "Archive is empty", false)
      else
        match FirstUnsafe(names)
        case Some(i) => RestoreReport(false, "Unsafe path in archive: " + names[i], false)
        case None =>
          match extractError
          case Some(e) => RestoreReport(false, "Restore failed: " + e, true)
          case None => RestoreReport(true, "Restored from " + archivePath + " to " + restoreDir, true)
  }

  /** An archive holding an absolute or `..` member is refused as a whole,
      nothing is extracted, and the message says "Unsafe path"; no other
      outcome of an opened archive produces that message. */
  lemma RestoreRejectsTraversal(archivePath: string, restoreDir: string, names: seq<string>,
                                extractError: Option<string>)
    ensures var r := RestoreLocalBackup(archivePath, restoreDir, Members(names), extractError);
            (exists i :: 0 <= i < |names| && IsUnsafeMember(names[i])) <==>
              (StartsWith(r.message, "Unsafe path") && !r.ok && !r.extracted)
  {
    var r := RestoreLocalBackup(archivePath, restoreDir, Members(names), extractError);
    if !(exists i :: 0 <= i < |names| && IsUnsafeMember(names[i])) {
      assert !StartsWith(r.message, "Unsafe path") by {
        assert r.message[0] != 'U';
      }
    }
  }

  /** Whenever extraction is reached, every member name lands inside the
      restore directory. */
  lemma RestoredNamesLandInside(archivePath: string, restoreDir: string, names: seq<string>,
                                extractError: Option<string>, i: nat)
    requires RestoreLocalBackup(archivePath, restoreDir, Members(names), extractError).extracted
    requires i < |names|
    ensures LandsInside(names[i])
  {
    SafeMemberLandsInside(names[i]);
  }

  /** `list_local_backups(backup_dir)`: `(path, size, mtime)` rows for the
      `*.tar.gz` files, newest name first. */
  function ListLocalBackups(dir: Option<seq<DirEntry>>): (r: seq<BackupRow>)
    ensures dir.None? ==> r == []
    ensures |r| == |Listed(dir)|
    ensures forall i :: 0 <= i < |r| ==>
              var e := Listed(dir)[i];
              r[i] == BackupRow(e.name, FormatFileSize(e.stat.value.size), e.stat.value.mtime)
    ensures forall i :: 0 <= i < |r| ==> IsBackupName(r[i].name)
    ensures forall i, j :: 0 <= i < j < |r| ==> StrLe(r[j].name, r[i].name)
  {
    var listed := Listed(dir);
    assert forall i :: 0 <= i < |listed| ==> listed[i] in listed;
    seq(|listed|, i requires 0 <= i < |listed| =>
      BackupRow(listed[i].name, FormatFileSize(listed[i].stat.value.size), listed[i].stat.value.mtime))
  }

  /** `get_change_summary(data_dir, max_entries)`: `audit` is the audit
      log's lines (`None` when `audit.log` is missing or unreadable),
      `hist` the entries two levels below `history` (`None` when the
      directory is missing). */
  function GetChangeSummary(audit: Option<seq<string>>, hist: Option<seq<HistItem>>,
                            maxEntries: int): (r: seq<Change>)
    ensures audit.None? && hist.None? ==> r == []
    ensures maxEntries >= 1 ==> |r| <= maxEntries
    ensures forall i, j :: 0 <= i < j < |r| && r[i].kind == History ==> r[j].kind == History
  {
    LastChanges(AuditPart(audit, maxEntries), HistoryChanges(hist, maxEntries), maxEntries)
  }

  /** `changes[-max_entries:]` over the audit changes followed by the
      history changes: a suffix of them, as long as `maxEntries` allows,
      in which no audit change follows a history change. */
  function LastChanges(auditChanges: seq<Change>, histChanges: seq<Change>, maxEntries: int): (r: seq<Change>)
    requires forall c :: c in auditChanges ==> c.kind != History
    requires forall c :: c in histChanges ==> c.kind == History
    ensures var all := auditChanges + histChanges;
            && |r| <= |all|
            && r == all[|all| - |r|..]
            && (maxEntries >= 1 ==> |r| == (if maxEntries < |all| then maxEntries else |all|))
            && (maxEntries == 0 ==> r == all)
    ensures forall i, j :: 0 <= i < j < |r| && r[i].kind == History ==> r[j].kind == History
  {
    var all := auditChanges + histChanges;
    assert forall k :: 0 <= k < |auditChanges| ==> all[k] == auditChanges[k] && auditChanges[k] in auditChanges;
    assert forall k :: |auditChanges| <= k < |all| ==>
             all[k] == histChanges[k - |auditChanges|] && histChanges[k - |auditChanges|] in histChanges;
    SliceFrom(all, -maxEntries)
  }

  /** The audit part of the summary, empty when the log is missing or
      unreadable; otherwise the changes of the last `maxEntries` lines. */
  function AuditPart(audit: Option<seq<string>>, maxEntries: int): (r: seq<Change>)
    ensures audit.None? ==> r == []
    ensures forall c :: c in r ==> c.kind != History
    ensures audit.Some? ==> |r| <= |SliceFrom(audit.value, -maxEntries)|
    ensures audit.Some? ==>
              forall c :: c in r <==> exists l :: l in SliceFrom(audit.value, -maxEntries) && ParseAuditLine(l) == Some(c)
  {
    match audit
    case None => []
    case Some(lines) => AuditChanges(lines, maxEntries)
  }
}
