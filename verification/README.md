# qvm-remote desktop helpers in Dafny

qvm-remote lets a Qubes OS qube run commands in dom0. Its two desktop front
ends, `gui/qubes_remote_ui.py` (the remote UI) and `gui2/qubes_admin_ui.py`
(the admin UI), carry their own copies of a small layer of pure helpers.
This project models that layer:

- the 64-character authentication-key check (`valid_hex_key`), including
  the full grammar of Python's `int(key, 16)` that it relies on;
- the unit choice of the byte-size formatters (`format_file_size`,
  `fmt_size`);
- the checks a backup restore runs before extracting an archive
  (`restore_local_backup`, `backup_restore`): missing archive, unreadable
  archive, empty archive (remote UI only), absolute or `..` member names;
- the backup listing (`list_local_backups`, `backup_list`): `*.tar.gz`
  names that can be stat'ed, in descending name order;
- the change summary (`get_change_summary`): audit-log line parsing, the
  keyword classification with its priority, the history entries, and the
  `max_entries` windows;
- the key fingerprint written by the git backup pushes;
- the mapping of a subprocess outcome to a `(returncode, stdout, stderr)`
  triple (`run_quick`, `run_cmd`).

Every boundary the helpers cross is an input:
- an archive is its list of member names, or the fact that it is absent or
  unreadable;
- a directory listing is a sequence of names, each with the result of its
  `stat()`;
- the audit log is its sequence of lines;
- a history directory is a sequence of entries;
- a subprocess run is an `Outcome` (`Exited`, `NotFound`, `TimedOut`,
  `Other`).

Modules:

| file | module | contents |
|---|---|---|
| pystr.dfy | `PyStr` | Python string behaviour: `strip`, `startswith`, `in`, `find`, `lower`, slicing, `str(int)` |
| ordering.dfy | `Ordering` | `sorted(..., reverse=True)` as a verified insertion sort; order-preserving filter |
| hexkey.dfy | `HexKey` | `valid_hex_key` and the `int(s, 16)` grammar |
| sizes.dfy | `SizeFormat` | unit choice of the size formatters |
| archive.dfy | `ArchiveSafety` | the unsafe-member gate and what extraction does with a name |
| keymask.dfy | `KeyMask` | the key fingerprint |
| backups.dfy | `BackupListing` | the backup listing |
| audit.dfy | `AuditLog` | audit lines, classification, history entries |
| process.dfy | `ProcessOutcome` | subprocess outcomes and replies |
| remote_ui.dfy | `RemoteUi` | the gui/ helpers |
| admin_ui.dfy | `AdminUi` | the gui2/ helpers |
| agreement.dfy | `Agreement` | where the two front ends agree and where they part |

Both files define `valid_hex_key` with the same text (gui/qubes_remote_ui.py:79-87 and
gui2/qubes_admin_ui.py:600-607). They also share the fingerprint expression
(gui/qubes_remote_ui.py:786 and gui2/qubes_admin_ui.py:694). Each of these is
therefore defined once, in `HexKey` and `KeyMask`, and both front ends agree
on it for every input. The other helpers are modelled once per front end,
and `Agreement` relates the two versions. Where they diverge, it says how:
- only the remote UI refuses an archive with no members;
- the generic exception code is -1 in the remote UI and 1 in the admin UI;
- the unsafe-member and success messages are worded differently;
- the timeout and not-found stderr texts differ.

## Model

| member | source | states |
|---|---|---|
| HexKey.ValidHexKey | gui/qubes_remote_ui.py:79-87 | a key whose length is not 64 is refused; every 64-character string of hex digits in either case is accepted |
| HexKey.HexDigitsAccepted | gui2/qubes_admin_ui.py:603-605 | in the admin UI's copy, which is the same rule, `int(s, 16)` succeeds on every non-empty run of hex digits |
| HexKey.KnownKeys | gui/qubes_remote_ui.py:79-87 | 63 or 65 `a`s are refused; 64 copies of one character are accepted exactly when that character is a hex digit (`A`*64 yes, `g`*64 no) |
| HexKey.NoHexDigitRejected | gui/qubes_remote_ui.py:83-87 | a string with no hex digit at all is refused |
| HexKey.HasHexDigit | gui/qubes_remote_ui.py:83-85 | every accepted key contains a hex digit |
| HexKey.OnlyIntCharacters | gui/qubes_remote_ui.py:83-85 | an accepted key is made only of hex digits, whitespace that `int()` skips, signs, `x`/`X` and underscores |
| HexKey.PrefixedKeyAccepted | gui/qubes_remote_ui.py:79-87 | `"0x"` followed by 62 hex digits is accepted, although it is not 64 hex digits |
| HexKey.StrictIsValidWithoutExtras | gui/qubes_remote_ui.py:79-87 | the intended rule, 64 hex digits, holds exactly for the accepted keys that contain no whitespace, sign, prefix letter or underscore |
| SizeFormat.SizeUnit | gui/qubes_remote_ui.py:589-593 | the loop settles on B below 1024, KB below 1024^2, MB below 1024^3, GB below 1024^4 and TB otherwise, on the magnitude, each unit exactly on its range |
| SizeFormat.ByteText | gui/qubes_remote_ui.py:591 | the exact text is the decimal numeral of the count, read back as the same integer, followed by `" B"` |
| RemoteUi.FormatFileSize | gui/qubes_remote_ui.py:587-593 | below 1024 bytes the text is exact; otherwise it is scaled to the unit `SizeUnit` chooses, never B |
| AdminUi.FmtSize | gui2/qubes_admin_ui.py:610-615 | below 1024 bytes the text is `int(n)` and `" B"`; otherwise it is scaled to the unit `SizeUnit` chooses, never B |
| Agreement.SizesAgree | gui2/qubes_admin_ui.py:610-615 | both formatters produce the same text for every integer |
| ArchiveSafety.FirstUnsafe | gui/qubes_remote_ui.py:646-648 | finds none exactly when no member is absolute or contains `..`; otherwise the first such member in archive order |
| ArchiveSafety.SafeMemberLandsInside | gui/qubes_remote_ui.py:646-649 | every member name the gate lets through is relative and never climbs above the restore directory |
| ArchiveSafety.GateIsConservative | gui/qubes_remote_ui.py:647 | the gate also refuses `a..b`, an ordinary name that would land inside |
| RemoteUi.RestoreLocalBackup | gui/qubes_remote_ui.py:623-652 | the order of the checks: a missing archive first, then an unreadable one, then an empty one, then the first unsafe member; extraction is reached exactly when the archive is non-empty and every member is safe; success exactly when extraction is reached and does not fail |
| RemoteUi.RestoreRejectsTraversal | gui/qubes_remote_ui.py:646-648 | an opened archive holding an unsafe member yields an "Unsafe path" refusal without extraction, and no other archive does |
| RemoteUi.RestoredNamesLandInside | gui/qubes_remote_ui.py:646-649 | whenever extraction is reached, every member name lands inside the restore directory |
| AdminUi.BackupRestore | gui2/qubes_admin_ui.py:635-648 | missing, then unreadable, then the first unsafe member ("Unsafe path: m"); extraction is reached exactly when every member is safe, so an empty archive is extracted |
| AdminUi.ExtractedNamesLandInside | gui2/qubes_admin_ui.py:642-645 | whenever extraction is reached, every member name lands inside the restore directory |
| Agreement.RestoresAgree | gui2/qubes_admin_ui.py:635-648 | on every archive other than an empty one both restores succeed and extract alike; missing, unreadable and extraction-failure reports are identical; both name the same unsafe member, under different prefixes; the success messages differ in wording |
| Agreement.EmptyArchiveDiverges | gui/qubes_remote_ui.py:643-644 | an empty archive is refused with "Archive is empty" by the remote UI and extracted by the admin UI, which reports success unless extraction fails |
| Ordering.SortDesc | gui/qubes_remote_ui.py:666 | the result is in descending order and a permutation of the input |
| Ordering.SortDescMembers | gui/qubes_remote_ui.py:666 | sorting keeps exactly the same elements |
| Ordering.FilterSorted | gui/qubes_remote_ui.py:666-672 | skipping elements keeps a descending sequence descending |
| Ordering.FilterCounts | gui/qubes_remote_ui.py:666-672 | skipping elements keeps each kept element as often as it occurred and drops the others entirely |
| BackupListing.NameLeIsTotalPreorder | gui/qubes_remote_ui.py:666 | comparing by file name is a total preorder, as `sorted` needs |
| BackupListing.Listed | gui/qubes_remote_ui.py:662-672 | a missing directory lists nothing; a listed entry is exactly one in the directory whose name ends in `.tar.gz` and whose `stat()` succeeds; entries come in descending name order |
| BackupListing.ListedCounts | gui/qubes_remote_ui.py:662-672 | the listing holds each statable `*.tar.gz` entry exactly as often as the directory does, and nothing else |
| BackupListing.ListedOncePerName | gui/qubes_remote_ui.py:666-672 | in a directory whose names are distinct, no name is listed twice: one row per backup file |
| BackupListing.ListedStrictlyDescending | gui/qubes_remote_ui.py:666 | of two listed entries with different names the earlier has the strictly larger name |
| RemoteUi.ListLocalBackups | gui/qubes_remote_ui.py:655-675 | one row per listed entry, in the listing's order, with its formatted size and time; every row names a backup and names descend |
| AdminUi.BackupList | gui2/qubes_admin_ui.py:651-667 | one row per listed entry, in the listing's order, with its formatted size and time; every row names a backup and names descend |
| Agreement.ListingsAgree | gui2/qubes_admin_ui.py:651-667 | both front ends list the same rows in the same order |
| AuditLog.Classify | gui/qubes_remote_ui.py:700-709 | each event type holds exactly when its keyword occurs in the lower-cased text and no keyword of higher priority does: submit, key, done, error or fail, else log |
| AuditLog.ParseAuditLine | gui/qubes_remote_ui.py:691-710 | a line is skipped exactly when it strips to nothing; with a leading `[` and a later `]` the timestamp is the bracketed text and the description the stripped rest; otherwise the timestamp is empty and the description is the stripped line; the type is the description's classification |
| AuditLog.ParseFormatRoundTrip | gui/qubes_remote_ui.py:694-699 | parsing `"[ts] desc"` gives back `ts` and `desc` whenever `ts` holds no `]` and `desc` has no surrounding whitespace |
| AuditLog.ParsedLines | gui/qubes_remote_ui.py:690-710 | at most one entry per line and none of them a history entry; a change is in the parsed lines exactly when some line parses to it |
| AuditLog.BlankLinesGiveNothing | gui/qubes_remote_ui.py:691-693 | lines that strip to nothing contribute no change |
| AuditLog.ParsedLinesAppend | gui/qubes_remote_ui.py:690-710 | the changes of two consecutive blocks of lines are those of the first block followed by those of the second; a single line gives its own change, or nothing when blank |
| Ordering.CollectAppend | gui/qubes_remote_ui.py:690-710 | appending the parse results of each element in turn distributes over concatenation of the input |
| AuditLog.AuditChanges | gui/qubes_remote_ui.py:690 | for a positive `max_entries` the audit part holds at most that many entries, and a change is in it exactly when one of the last `max_entries` lines parses to it |
| AuditLog.AuditChangesInLineOrder | gui/qubes_remote_ui.py:690-710 | splitting the last `max_entries` lines anywhere splits the audit changes at the same place: changes come in line order |
| AuditLog.HistLeIsTotalPreorder | gui/qubes_remote_ui.py:718 | comparing history paths by day, then by name, is a total preorder |
| AuditLog.SecondField | gui/qubes_remote_ui.py:721 | `split("-")[1]` is the dash-free text right after the first `-`, ending at the next `-` or the end |
| AuditLog.HistTimestamp | gui/qubes_remote_ui.py:721 | for a name with a `-`, the day, a space and the name's second `-` field; otherwise the bare name |
| AuditLog.CommandText | gui/qubes_remote_ui.py:722-724 | no `command` file gives the empty text; otherwise a prefix of the stripped file, 80 characters long or the whole of it when shorter |
| AuditLog.HistoryChange | gui/qubes_remote_ui.py:721-726 | a history entry becomes a "history" change with the entry's timestamp and the description `exit=<rc> <cmd>`, where `rc` is the stripped `exit` file or `?` when it is missing |
| AuditLog.MapHistory | gui/qubes_remote_ui.py:719-726 | each history entry yields one change, in order |
| AuditLog.SortedHistory | gui/qubes_remote_ui.py:718 | history entries in descending (day, name) order, a permutation of the directory's entries |
| AuditLog.NewestReadable | gui/qubes_remote_ui.py:718-728 | the entries reported are in descending path order, at most `max_entries` of them, and hold each readable entry among the first `max_entries` sorted ones as often as it occurs there, and no other entry |
| AuditLog.HistoryChanges | gui/qubes_remote_ui.py:715-730 | a missing history directory yields nothing; otherwise at most `max_entries` changes, all of type history, each rendered from a readable entry of the directory; every readable entry among the first `max_entries` sorted ones is reported; the i-th change renders the i-th reported entry, so changes follow descending path order |
| RemoteUi.AuditPart | gui/qubes_remote_ui.py:686-712 | a missing or unreadable audit log yields nothing; otherwise at most one change per line of the last `max_entries`, and a change is reported exactly when one of those lines parses to it; no audit change has the history type |
| RemoteUi.GetChangeSummary | gui/qubes_remote_ui.py:678-732 | without an audit log and a history directory the summary is empty; for a positive `max_entries` it holds at most that many changes; no audit change follows a history change |
| RemoteUi.LastChanges | gui/qubes_remote_ui.py:732 | `changes[-max_entries:]` over audit changes followed by history changes is a suffix of them, of length `min(max_entries, n)` for a positive bound and all of them for 0, with the history changes still last |
| KeyMask.Fingerprint | gui/qubes_remote_ui.py:786 | for a key of 16 or more characters: 19 characters, the key's first and last eight around `...`; otherwise `***` |
| KeyMask.FingerprintHidesKey | gui/qubes_remote_ui.py:781-786 | the whole key never occurs in its fingerprint once it is longer than 19 characters, or dot-free and longer than 3 |
| KeyMask.FingerprintDeterminesEnds | gui2/qubes_admin_ui.py:694 | two keys share a fingerprint exactly when both are shorter than 16 characters or both are at least 16 long with the same first eight and last eight characters: nothing else about the key is revealed |
| RemoteUi.RunQuick | gui/qubes_remote_ui.py:512-527 | an exited child's triple passes through; a missing executable gives 127 and "Command not found: cmd\n", a timeout 124 and "Command timed out after Ns\n", any other exception -1 and its text; stdout is empty on every failure |
| RemoteUi.RunQuickCodesDistinguish | gui/qubes_remote_ui.py:522-527 | among the failures the code alone tells which one happened |
| AdminUi.RunCmd | gui2/qubes_admin_ui.py:500-509 | an exited child's triple passes through; a timeout gives 124 and "Command timed out", a missing executable 127 and "Command not found: cmd", any other exception 1 and its text; stdout is empty on every failure |
| AdminUi.RunCmdCodeIsAmbiguous | gui2/qubes_admin_ui.py:503-509 | a generic failure reports the same code and stdout as a child that exits with 1 |
| Agreement.RunnersAgree | gui2/qubes_admin_ui.py:500-509 | stdout always agrees and exited triples are identical; the codes agree except for a generic exception (-1 against 1); the not-found texts differ by the trailing newline and the timeout texts differ |

## Left out

- GTK widgets, dialogs, CSS, status indicators and notifications: user interface, no logic to prove.
- `CommandRunner`/`AsyncRunner` threads and pipes: concurrency.
- Creating and extracting tar archives, copying files, and the git init/commit/push/pull runs: I/O and external tools. Only their inputs are modelled: member names and directory listings. The failure of `extractall` is an input.
- `create_local_backup`/`backup_create`, `git_backup_pull`/`git_pull`, `_read_version`, `check_display`: file and environment I/O with no decision logic beyond what is modelled.
- The `.1f` text of KB, MB, GB and TB sizes: floating-point formatting. Only the unit is modelled (`SizeText.Scaled`).
- Sizes beyond the float range: `OverflowError` from the division is not modelled.
- `stat()` sizes and modification times are given as inputs. The `%Y-%m-%d %H:%M` formatting of the time is not modelled.
- `splitlines()`: the audit log arrives as its sequence of lines.
- A `UnicodeDecodeError` while reading the audit log (gui/qubes_remote_ui.py:690) or a history entry's `command` or `exit` file (gui/qubes_remote_ui.py:724-725): it is not an `OSError`, so it escapes `get_change_summary` altogether rather than skipping the log or the entry. Not modelled: the model treats every file it is given as decoded text.
- The outer `except OSError` around the listing and history loops: a failure in the middle of a directory walk is not modelled. A directory is either missing or read completely.
- Path joining and normalisation: a `BackupRow` carries the file name, while both listings return `str(f)`, the backup directory's path joined with that name (gui/qubes_remote_ui.py:670, gui2/qubes_admin_ui.py:661). The directory prefix is the same for every row, so the order and the count are unaffected. History entries are compared by (day, name), as the paths under one directory compare.
- Sort stability: `SortDesc` is stated as ordered and a permutation. How equal keys are ordered is not stated. Names within one directory are distinct anyway.
- Symbolic and hard link members: the gate only inspects names, and so does the model.
- The rest of `key-fingerprint.txt` (length line, date line): a clock and file writes.
- Unicode case mapping: `lower()` is modelled on ASCII letters. A non-ASCII letter whose lower case is an ASCII letter, such as the Kelvin sign, is not modelled.
- RemoteUi.GetChangeSummary: its contract does not restate which changes it returns; it is `LastChanges` of the audit part and the history part, and `LastChanges` carries the window property.
- HexKey.ValidHexKey: non-ASCII decimal digits, which `int()` also accepts, are not modelled; such a key is refused by the model.
- The queue, HMAC authentication and daemon of qvm-remote: their source is not part of this model.

## Findings

| source | as written | input that shows it | evidently intended | confidence | as-written member | corrected member |
|---|---|---|---|---|---|---|
| gui/qubes_remote_ui.py:79-87 (and gui2/qubes_admin_ui.py:600-607) | the key is accepted when it has 64 characters and `int(key, 16)` parses it, which also allows surrounding whitespace, a sign, a `0x` prefix and underscores | `"0x"` followed by 62 hex digits, which is 64 characters | "a valid 64-character hex string": exactly 64 hex digits | medium; not executed | HexKey.PrefixedKeyAccepted | HexKey.StrictIsValidWithoutExtras |
