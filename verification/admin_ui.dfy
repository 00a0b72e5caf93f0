/** The pure helper logic of gui2/qubes_admin_ui.py, the second desktop
    front end. Its key check and fingerprint rule are the shared `HexKey`
    and `KeyMask` definitions; what it does differently is written here. */
module AdminUi {
  import opened PyStr
  import opened SizeFormat
  import opened ArchiveSafety
  import opened BackupListing
  import opened ProcessOutcome

  /** The code `run_cmd` reports for any exception other than a timeout or
      a missing executable. */
  const GenericErrorCode: int := 1

  /** `run_cmd(cmd, timeout)`: the child's own triple when it exited,
      otherwise an empty stdout and an explanatory stderr, which carries
      no trailing newline and does not mention the timeout. */
  function RunCmd(cmd: seq<string>, outcome: Outcome): (r: Reply)
    requires outcome.NotFound? ==> |cmd| > 0
    ensures outcome.Exited? ==> r == Reply(outcome.rc, outcome.out, outcome.err)
    ensures !outcome.Exited? ==> r.out == ""
    ensures outcome.NotFound? ==> r.code == NotFoundCode && r.err == "Command not found: " + cmd[0]
    ensures outcome.TimedOut? ==> r.code == TimeoutCode && r.err == "Command timed out"
    ensures outcome.Other? ==> r.code == GenericErrorCode && r.err == outcome.msg
  {
    match outcome
    case Exited(rc, out, err) => Reply(rc, out, err)
    case TimedOut => Reply(124, "", "Command timed out")
    case NotFound => Reply(127, "", "Command not found: " + cmd[0])
    case Other(msg) => Reply(1, "", msg)
  }

  /** A child that exits with code 1 reports the same code as a failure to
      start it, so here the code alone does not tell the two apart. */
  lemma RunCmdCodeIsAmbiguous(msg: string, err: string)
    ensures RunCmd([], Other(msg)).code == RunCmd([], Exited(1, "", err)).code
    ensures RunCmd([], Other(msg)).out == RunCmd([], Exited(1, "", err)).out
  {
  }

  /** `fmt_size(n)` for an integer byte count. */
  function FmtSize(n: int): (r: SizeText)
    ensures r.Exact? <==> Abs(n) < KiB
    ensures r.Exact? ==> r.text == ByteText(n)
    ensures r.Scaled? ==> r.unit == SizeUnit(n) && r.unit != B
  {
    var u := SizeUnit(n);
    if u == B then Exact(ByteText(n)) else Scaled(u)
  }

  /** `backup_restore(archive, restore_dir)` up to the call of
      `extractall`, whose failure is `extractError`. Unlike the other front
      end it has no check for an empty archive. */
  function BackupRestore(archivePath: string, restoreDir: string, archive: ArchiveFile,
                         extractError: Option<string>): (r: RestoreReport)
    ensures archive.Absent? ==> r == RestoreReport(false, "Archive not found: " + archivePath, false)
    ensures archive.Unreadable? ==> r == RestoreReport(false, "Restore failed: " + archive.error, false)
    ensures r.extracted <==>
              archive.Members? && forall i :: 0 <= i < |archive.names| ==> !IsUnsafeMember(archive.names[i])
    ensures archive.Members? && FirstUnsafe(archive.names).Some? ==>
              !r.ok && r.message == "Unsafe path: " + archive.names[FirstUnsafe(archive.names).value]
    ensures r.ok <==> r.extracted && extractError.None?
    ensures r.ok ==> r.message == "Restored to " + restoreDir
    ensures r.extracted && extractError.Some? ==> r.message == "Restore failed: " + extractError.value
  {
    match archive
    case Absent => RestoreReport(false, "Archive not found: " + archivePath, false)
    case Unreadable(e) => RestoreReport(false, "Restore failed: " + e, false)
    case Members(names) =>
      match FirstUnsafe(names)
      case Some(i) => RestoreReport(false, "Unsafe path: " + names[i], false)
      case None =>
        match extractError
        case Some(e) => RestoreReport(false, "Restore failed: " + e, true)
        case None => RestoreReport(true, "Restored to " + restoreDir, true)
  }

  /** Whatever `extractall` does with them, the names it is given all land
      inside the restore directory. */
  lemma ExtractedNamesLandInside(archivePath: string, restoreDir: string, names: seq<string>,
                                 extractError: Option<string>, i: nat)
    requires BackupRestore(archivePath, restoreDir, Members(names), extractError).extracted
    requires i < |names|
    ensures LandsInside(names[i])
  {
    SafeMemberLandsInside(names[i]);
  }

  /** `backup_list(bak_dir)`: `(path, size, mtime)` rows for the `*.tar.gz`
      files, newest name first. */
  function BackupList(dir: Option<seq<DirEntry>>): (r: seq<BackupRow>)
    ensures dir.None? ==> r == []
    ensures |r| == |Listed(dir)|
    ensures forall i :: 0 <= i < |r| ==>
              var e := Listed(dir)[i];
              r[i] == BackupRow(e.name, FmtSize(e.stat.value.size), e.stat.value.mtime)
    ensures forall i :: 0 <= i < |r| ==> IsBackupName(r[i].name)
    ensures forall i, j :: 0 <= i < j < |r| ==> StrLe(r[j].name, r[i].name)
  {
    var listed := Listed(dir);
    assert forall i :: 0 <= i < |listed| ==> listed[i] in listed;
    seq(|listed|, i requires 0 <= i < |listed| =>
      BackupRow(listed[i].name, FmtSize(listed[i].stat.value.size), listed[i].stat.value.mtime))
  }
}
