/** The backup-directory listing shared by `list_local_backups` (gui/) and
    `backup_list` (gui2/): the `*.tar.gz` names of one directory, sorted in
    descending name order, skipping entries whose `stat()` fails. */
module BackupListing {
  import opened PyStr
  import opened Ordering
  import opened SizeFormat

  /** What `stat()` reports for a listed file. The modification time is
      kept as the already formatted `%Y-%m-%d %H:%M` text. */
  datatype FileStat = FileStat(size: int, mtime: string)

  /** One name of a directory listing; `stat` is `None` when `stat()`
      raises `OSError` for it. */
  datatype DirEntry = DirEntry(name: string, stat: Option<FileStat>)

  /** One `(path, size_str, mtime_str)` row of a listing; `name` is the
      last component of the path. */
  datatype BackupRow = BackupRow(name: string, size: SizeText, mtime: string)

  const ArchiveSuffix: string := ".tar.gz"

  /** The names `glob("*.tar.gz")` matches: `*` also matches dot-files and
      the empty string. */
  predicate IsBackupName(name: string) {
    EndsWith(name, ArchiveSuffix)
  }

  predicate IsBackupEntry(e: DirEntry) {
    IsBackupName(e.name)
  }

  predicate IsStatable(e: DirEntry) {
    e.stat.Some?
  }

  /** Paths in one directory compare by their last component. */
  predicate NameLe(a: DirEntry, b: DirEntry) {
    StrLe(a.name, b.name)
  }

  lemma NameLeIsTotalPreorder()
    ensures IsTotalPreorder(NameLe)
  {
    forall a: DirEntry, b: DirEntry ensures NameLe(a, b) || NameLe(b, a) {
      StrLeTotal(a.name, b.name);
    }
    forall a: DirEntry, b: DirEntry, c: DirEntry | NameLe(a, b) && NameLe(b, c)
      ensures NameLe(a, c)
    {
      StrLeTransitive(a.name, b.name, c.name);
    }
  }

  /** The entries both listings report, in their order: `None` stands for
      a directory that does not exist. */
  function Listed(dir: Option<seq<DirEntry>>): (r: seq<DirEntry>)
    ensures dir.None? ==> r == []
    ensures forall e :: e in r <==> dir.Some? && e in dir.value && IsBackupName(e.name) && e.stat.Some?
    ensures SortedDesc(r, NameLe)
  {
    match dir
    case None => []
    case Some(entries) =>
      NameLeIsTotalPreorder();
      var sorted := SortDesc(Filter(entries, IsBackupEntry), NameLe);
      forall e ensures e in sorted <==> e in entries && IsBackupEntry(e) {
        SortDescMembers(Filter(entries, IsBackupEntry), NameLe, e);
      }
      FilterSorted(sorted, IsStatable, NameLe);
      Filter(sorted, IsStatable)
  }

  /** The listing holds each statable `*.tar.gz` entry as often as the
      directory does and nothing else. */
  lemma ListedCounts(entries: seq<DirEntry>)
    ensures forall e :: multiset(Listed(Some(entries)))[e] ==
              if IsBackupName(e.name) && e.stat.Some? then multiset(entries)[e] else 0
  {
    NameLeIsTotalPreorder();
    var sorted := SortDesc(Filter(entries, IsBackupEntry), NameLe);
    FilterCounts(entries, IsBackupEntry);
    FilterCounts(sorted, IsStatable);
  }

  /** A directory lists each of its names once, so the listing does too:
      one row per statable `*.tar.gz` file. */
  lemma ListedOncePerName(entries: seq<DirEntry>)
    requires forall a, b :: 0 <= a < b < |entries| ==> entries[a].name != entries[b].name
    ensures forall i, j :: 0 <= i < j < |Listed(Some(entries))| ==>
              Listed(Some(entries))[i].name != Listed(Some(entries))[j].name
  {
    var r := Listed(Some(entries));
    forall i, j | 0 <= i < j < |r| ensures r[i].name != r[j].name {
      if r[i].name == r[j].name {
        assert r[i] in entries && r[j] in entries;
        var a :| 0 <= a < |entries| && entries[a] == r[i];
        OccursOnce(entries, a);
        ListedCounts(entries);
        if r[i] == r[j] {
          OccursTwice(r, i, j);
        }
        assert false;
      }
    }
  }

  /** With distinct names, every entry occurs once. */
  lemma OccursOnce(entries: seq<DirEntry>, a: nat)
    requires forall x, y :: 0 <= x < y < |entries| ==> entries[x].name != entries[y].name
    requires a < |entries|
    ensures multiset(entries)[entries[a]] == 1
    ensures forall e :: e in entries && e.name == entries[a].name ==> e == entries[a]
  {
    assert entries == entries[..a] + [entries[a]] + entries[a + 1..];
    assert entries[a] !in entries[..a];
    assert entries[a] !in entries[a + 1..];
  }

  lemma OccursTwice<T>(xs: seq<T>, i: nat, j: nat)
    requires i < j < |xs| && xs[i] == xs[j]
    ensures multiset(xs)[xs[i]] >= 2
  {
    assert xs == xs[..i] + [xs[i]] + xs[i + 1..j] + [xs[j]] + xs[j + 1..];
  }

  /** Distinct names come out strictly descending, so the order of the
      listing is determined by the names alone. */
  lemma ListedStrictlyDescending(dir: Option<seq<DirEntry>>, i: nat, j: nat)
    requires i < j < |Listed(dir)|
    requires Listed(dir)[i].name != Listed(dir)[j].name
    ensures StrLe(Listed(dir)[j].name, Listed(dir)[i].name)
    ensures !StrLe(Listed(dir)[i].name, Listed(dir)[j].name)
  {
    var r := Listed(dir);
    if StrLe(r[i].name, r[j].name) {
      StrLeAntisymmetric(r[i].name, r[j].name);
    }
  }
}
