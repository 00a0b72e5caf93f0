/** Where the two front ends compute the same thing and where they differ.
    gui/qubes_remote_ui.py and gui2/qubes_admin_ui.py carry separately
    written copies of the same helpers; the lemmas here pin down which
    copies agree on every input and exactly how the others diverge. */
module Agreement {
  import opened PyStr
  import opened ArchiveSafety
  import opened BackupListing
  import opened ProcessOutcome
  import RemoteUi
  import AdminUi

  /** Both size formatters choose the same text for every integer. */
  lemma SizesAgree(n: int)
    ensures RemoteUi.FormatFileSize(n) == AdminUi.FmtSize(n)
  {
  }

  /** Both listings report the same rows in the same order. */
  lemma ListingsAgree(dir: Option<seq<DirEntry>>)
    ensures RemoteUi.ListLocalBackups(dir) == AdminUi.BackupList(dir)
  {
    var a := RemoteUi.ListLocalBackups(dir);
    var b := AdminUi.BackupList(dir);
    forall i | 0 <= i < |a| ensures a[i] == b[i] {
      SizesAgree(Listed(dir)[i].stat.value.size);
    }
  }

  /** Both restores refuse exactly the same archives and extract exactly
      the same ones, except that only gui/ refuses an archive with no
      members. Not-found and failure messages are the same text; the
      refusal and success messages differ in wording only. */
  lemma RestoresAgree(archivePath: string, restoreDir: string, archive: ArchiveFile,
                      extractError: Option<string>)
    ensures var r1 := RemoteUi.RestoreLocalBackup(archivePath, restoreDir, archive, extractError);
            var r2 := AdminUi.BackupRestore(archivePath, restoreDir, archive, extractError);
            && (archive != Members([]) ==> r1.ok == r2.ok && r1.extracted == r2.extracted)
            && (archive.Absent? || archive.Unreadable? ==> r1 == r2)
            && (!r1.ok && r1.extracted ==> r1.message == r2.message)
            && (archive.Members? && FirstUnsafe(archive.names).Some? ==>
                  var m := archive.names[FirstUnsafe(archive.names).value];
                  r1.message == "Unsafe path in archive: " + m && r2.message == "Unsafe path: " + m)
            && (r1.ok ==> r1.message == "Restored from " + archivePath + " to " + restoreDir
                          && r2.message == "Restored to " + restoreDir)
  {
  }

  /** The one place the two restores part: an archive with no members. */
  lemma EmptyArchiveDiverges(archivePath: string, restoreDir: string, extractError: Option<string>)
    ensures RemoteUi.RestoreLocalBackup(archivePath, restoreDir, Members([]), extractError)
            == RestoreReport(false, "Archive is empty", false)
    ensures AdminUi.BackupRestore(archivePath, restoreDir, Members([]), extractError).extracted
    ensures AdminUi.BackupRestore(archivePath, restoreDir, Members([]), extractError).ok
            <==> extractError.None?
  {
  }

  /** Both command runners pass an exited child's triple through and
      always report an empty stdout on failure; their codes differ only for
      the generic exception (-1 in gui/, 1 in gui2/), and their stderr
      texts differ for a timeout and for a missing executable. */
  lemma RunnersAgree(args: seq<string>, timeout: int, outcome: Outcome)
    requires outcome.NotFound? ==> |args| > 0
    ensures var r1 := RemoteUi.RunQuick(args, timeout, outcome);
            var r2 := AdminUi.RunCmd(args, outcome);
            && r1.out == r2.out
            && (r1.code == r2.code <==> !outcome.Other?)
            && (outcome.Other? ==> r1.code == -1 && r2.code == 1 && r1.err == r2.err)
            && (outcome.Exited? ==> r1 == r2)
            && (outcome.NotFound? ==> r1.err == r2.err + "\n")
            && (outcome.TimedOut? ==> r1.err != r2.err)
  {
    if outcome.TimedOut? {
      var r1 := RemoteUi.RunQuick(args, timeout, outcome);
      assert r1.err[|r1.err| - 1] == '\n';
    }
  }
}
