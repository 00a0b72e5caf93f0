/** Audit-log and history parsing behind `get_change_summary`
    (gui/qubes_remote_ui.py): each audit line becomes a
    (timestamp, event type, description) triple, each history directory a
    `history` triple. */
module AuditLog {
  import opened PyStr
  import opened Ordering

  datatype EventKind = Command | Key | Result | Error | Log | History

  /** One `(timestamp, event_type, description)` tuple of the summary. */
  datatype Change = Change(ts: string, kind: EventKind, desc: string)

  // ---------------------------------------------------------------------------
  // Audit lines
  // ---------------------------------------------------------------------------

  /** The event type of a description, by keyword on its lower-cased text,
      in the priority submit, key, done, error/fail. */
  function Classify(desc: string): (k: EventKind)
    ensures var low := Lower(desc);
            && (k == Command <==> Contains(low, "submit"))
            && (k == Key <==> !Contains(low, "submit") && Contains(low, "key"))
            && (k == Result <==> !Contains(low, "submit") && !Contains(low, "key") && Contains(low, "done"))
            && (k == Error <==> !Contains(low, "submit") && !Contains(low, "key") && !Contains(low, "done")
                                && (Contains(low, "error") || Contains(low, "fail")))
            && (k == Log <==> !Contains(low, "submit") && !Contains(low, "key") && !Contains(low, "done")
                              && !Contains(low, "error") && !Contains(low, "fail"))
  {
    var low := Lower(desc);
    if Contains(low, "submit") then Command
    else if Contains(low, "key") then Key
    else if Contains(low, "done") then Result
    else if Contains(low, "error") || Contains(low, "fail") then Error
    else Log
  }

  /** Splits a stripped, non-blank line into timestamp and description:
      a leading `[` closed by a later `]` brackets the timestamp. */
  function SplitTimestamp(line: string): (r: (string, string))
  {
    if StartsWith(line, "[") && Find(line, ']') > 0 then
      var end := Find(line, ']');
      (line[1..end], Strip(line[end + 1..]))
    else ("", line)
  }

  /** One audit line: `None` for a blank line, which the summary skips. */
  function ParseAuditLine(raw: string): (r: Option<Change>)
    ensures r.None? <==> Strip(raw) == ""
    ensures r.Some? ==> r.value.kind != History && r.value.kind == Classify(r.value.desc)
    ensures r.Some? && StartsWith(Strip(raw), "[") && ']' in Strip(raw) ==>
              var line := Strip(raw);
              var end := Find(line, ']');
              && ']' !in r.value.ts
              && line == "[" + r.value.ts + "]" + line[end + 1..]
              && r.value.desc == Strip(line[end + 1..])
    ensures r.Some? && !(StartsWith(Strip(raw), "[") && ']' in Strip(raw)) ==>
              r.value.ts == "" && r.value.desc == Strip(raw)
  {
    var line := Strip(raw);
    if line == "" then None
    else
      var (ts, desc) := SplitTimestamp(line);
      BracketShape(line);
      Some(Change(ts, Classify(desc), desc))
  }

  lemma BracketShape(line: string)
    ensures StartsWith(line, "[") && ']' in line ==>
              var end := Find(line, ']');
              line == "[" + line[1..end] + "]" + line[end + 1..]
  {
    if StartsWith(line, "[") && ']' in line {
      var end := Find(line, ']');
      assert line == [line[0]] + line[1..end] + line[end..];
      assert line[end..] == "]" + line[end + 1..];
    }
  }

  /** How the command-line tools write an audit record. */
  function FormatAuditLine(ts: string, desc: string): string {
    "[" + ts + "] " + desc
  }

  /** Parsing a written record gives back its timestamp and description,
      whenever the timestamp holds no `]` and the description has no
      surrounding whitespace. */
  lemma ParseFormatRoundTrip(ts: string, desc: string)
    requires ']' !in ts
    requires IsStripped(desc)
    ensures ParseAuditLine(FormatAuditLine(ts, desc)) == Some(Change(ts, Classify(desc), desc))
  {
    var line := StrippedRecord(ts, desc);
    SplitRecord(ts, desc, line);
  }

  lemma SplitRecord(ts: string, desc: string, line: string)
    requires ']' !in ts
    requires IsStripped(desc)
    requires line == "[" + ts + "]" + (if |desc| == 0 then "" else " " + desc)
    ensures SplitTimestamp(line) == (ts, desc)
  {
    var end := |ts| + 1;
    var tail := line[end..];
    assert line == "[" + ts + tail;
    RecordBracket(ts, tail);
    assert StartsWith(line, "[");
    var rest := line[end + 1..];
    if |desc| == 0 {
      assert rest == "";
      assert Strip(rest) == "";
    } else {
      assert rest == " " + desc;
      StripSpaceThenStripped(desc);
    }
  }

  /** Stripping a written record only drops the separator space when the
      description is empty. */
  lemma StrippedRecord(ts: string, desc: string) returns (line: string)
    requires IsStripped(desc)
    ensures line == "[" + ts + "]" + (if |desc| == 0 then "" else " " + desc)
    ensures Strip(FormatAuditLine(ts, desc)) == line
  {
    var s := FormatAuditLine(ts, desc);
    line := "[" + ts + "]" + (if |desc| == 0 then "" else " " + desc);
    assert TrimStart(s, IsSpace) == s by {
      assert s[0] == '[';
    }
    if |desc| == 0 {
      assert s == line + " ";
      assert s[..|s| - 1] == line;
      assert TrimEnd(s, IsSpace) == TrimEnd(line, IsSpace);
      TrimOfTrimmed(line, IsSpace);
      assert TrimStart(line, IsSpace) == line;
    } else {
      assert s == line;
      assert s[|s| - 1] == desc[|desc| - 1];
      TrimOfTrimmed(s, IsSpace);
    }
  }

  /** In `"[" + ts + rest` with no `]` in `ts`, the first `]` is the one
      that opens `rest`. */
  lemma RecordBracket(ts: string, rest: string)
    requires ']' !in ts
    requires |rest| > 0 && rest[0] == ']'
    ensures var line := "[" + ts + rest;
            && Find(line, ']') == |ts| + 1
            && line[1..|ts| + 1] == ts
            && line[|ts| + 2..] == rest[1..]
  {
    var line := "[" + ts + rest;
    var end := |ts| + 1;
    assert line[..end] == "[" + ts;
    assert line[end] == ']';
    forall i | 0 <= i < end ensures line[i] != ']' {
      if i > 0 {
        assert line[i] == ts[i - 1];
      }
    }
    assert ']' !in line[..end];
  }

  /** The audit part of the summary: the last `maxEntries` lines (Python's
      `lines[-maxEntries:]`), blank ones skipped, each parsed. */
  function AuditChanges(lines: seq<string>, maxEntries: int): (r: seq<Change>)
    ensures maxEntries >= 1 ==> |r| <= maxEntries
    ensures |r| <= |SliceFrom(lines, -maxEntries)|
    ensures forall c :: c in r ==> c.kind != History
    ensures forall c :: c in r <==> exists l :: l in SliceFrom(lines, -maxEntries) && ParseAuditLine(l) == Some(c)
  {
    ParsedLines(SliceFrom(lines, -maxEntries))
  }

  /** The changes of a block of audit lines, in line order, blank lines
      contributing nothing. */
  function ParsedLines(lines: seq<string>): (r: seq<Change>)
    ensures |r| <= |lines|
    ensures forall c :: c in r ==> c.kind != History
    ensures forall c :: c in r <==> exists l :: l in lines && ParseAuditLine(l) == Some(c)
  {
    forall c ensures c in Collect(lines, ParseAuditLine) <==> exists l :: l in lines && ParseAuditLine(l) == Some(c) {
      CollectMembers(lines, ParseAuditLine, c);
    }
    Collect(lines, ParseAuditLine)
  }

  /** Blank lines contribute nothing. */
  lemma BlankLinesGiveNothing(lines: seq<string>)
    requires forall i :: 0 <= i < |lines| ==> Strip(lines[i]) == ""
    ensures ParsedLines(lines) == []
  {
    CollectNothing(lines, ParseAuditLine);
  }

  /** The audit part is parsed line by line: the changes of a block of
      lines follow those of the lines before it, and a single line gives
      its own change or, when blank, nothing. */
  lemma ParsedLinesAppend(a: seq<string>, b: seq<string>)
    ensures ParsedLines(a + b) == ParsedLines(a) + ParsedLines(b)
    ensures |a| == 1 ==> ParsedLines(a) == match ParseAuditLine(a[0]) case Some(c) => [c] case None => []
  {
    CollectAppend(a, b, ParseAuditLine);
    if |a| == 1 {
      assert a[1..] == [];
    }
  }

  /** Splitting the window of the last `maxEntries` lines anywhere splits
      the audit changes there too. */
  lemma AuditChangesInLineOrder(lines: seq<string>, maxEntries: int, a: seq<string>, b: seq<string>)
    requires SliceFrom(lines, -maxEntries) == a + b
    ensures AuditChanges(lines, maxEntries) == ParsedLines(a) + ParsedLines(b)
  {
    ParsedLinesAppend(a, b);
  }

  // ---------------------------------------------------------------------------
  // History directories
  // ---------------------------------------------------------------------------

  /** One `history/<day>/<name>` entry. `command` and `exit` are the file
      contents, `None` when the file does not exist; `readable` is false
      when reading either raises `OSError`, which skips the entry. */
  datatype HistItem = HistItem(day: string, name: string, command: Option<string>,
                               exit: Option<string>, readable: bool)

  /** Paths under one directory compare part by part: day, then name. */
  predicate HistLe(a: HistItem, b: HistItem) {
    if a.day == b.day then StrLe(a.name, b.name) else StrLe(a.day, b.day)
  }

  lemma HistLeIsTotalPreorder()
    ensures IsTotalPreorder(HistLe)
  {
    forall a: HistItem, b: HistItem ensures HistLe(a, b) || HistLe(b, a) {
      StrLeTotal(a.name, b.name);
      StrLeTotal(a.day, b.day);
    }
    forall a: HistItem, b: HistItem, c: HistItem | HistLe(a, b) && HistLe(b, c)
      ensures HistLe(a, c)
    {
      HistLeChain(a, b, c);
    }
  }

  lemma HistLeChain(a: HistItem, b: HistItem, c: HistItem)
    requires HistLe(a, b) && HistLe(b, c)
    ensures HistLe(a, c)
  {
    if a.day == b.day && b.day == c.day {
      StrLeTransitive(a.name, b.name, c.name);
    } else {
      StrLeReflexive(a.day);
      StrLeReflexive(b.day);
      assert StrLe(a.day, b.day) && StrLe(b.day, c.day);
      StrLeTransitive(a.day, b.day, c.day);
      if a.day == c.day {
        StrLeAntisymmetric(a.day, b.day);
      }
    }
  }

  /** Python's `s.split("-")[1]` for a string holding a `-`: the text
      between the first and the second `-`. */
  function SecondField(s: string): (r: string)
    requires '-' in s
    ensures '-' !in r
    ensures var i := Find(s, '-');
            && StartsWith(s[i + 1..], r)
            && (i + 1 + |r| == |s| || s[i + 1 + |r|] == '-')
  {
    var i := Find(s, '-');
    var rest := s[i + 1..];
    var j := Find(rest, '-');
    if j < 0 then rest else rest[..j]
  }

  /** The timestamp shown for a history entry: day and the time field of
      a `<date>-<time>-<rest>` name, or the bare name. */
  function HistTimestamp(item: HistItem): (ts: string)
    ensures '-' !in item.name ==> ts == item.name
    ensures '-' in item.name ==>
              && |ts| > |item.day|
              && ts[..|item.day| + 1] == item.day + " "
              && ts[|item.day| + 1..] == SecondField(item.name)
  {
    if '-' in item.name then item.day + " " + SecondField(item.name) else item.name
  }

  const CommandPreview: int := 80

  /** The command shown for a history entry: the first 80 characters of
      the stripped `command` file, or nothing when there is none. */
  function CommandText(command: Option<string>): (cmd: string)
    ensures command.None? ==> cmd == ""
    ensures command.Some? ==>
              && StartsWith(Strip(command.value), cmd)
              && |cmd| == (if |Strip(command.value)| < CommandPreview then |Strip(command.value)| else CommandPreview)
  {
    match command
    case Some(t) => SliceTo(Strip(t), CommandPreview)
    case None => ""
  }

  /** The change a history entry contributes: its timestamp, and
      `exit=<code> <command>` where the code is the stripped `exit` file or
      `?` when there is none. */
  function HistoryChange(item: HistItem): (c: Change)
    ensures c.kind == History
    ensures c.ts == HistTimestamp(item)
    ensures item.exit.Some? ==> c.desc == "exit=" + Strip(item.exit.value) + " " + CommandText(item.command)
    ensures item.exit.None? ==> c.desc == "exit=? " + CommandText(item.command)
  {
    var rc := match item.exit case Some(t) => Strip(t) case None => "?";
    Change(HistTimestamp(item), History, "exit=" + rc + " " + CommandText(item.command))
  }

  function MapHistory(items: seq<HistItem>): (r: seq<Change>)
    ensures |r| == |items|
    ensures forall i :: 0 <= i < |items| ==> r[i] == HistoryChange(items[i])
  {
    seq(|items|, i requires 0 <= i < |items| => HistoryChange(items[i]))
  }

  predicate IsReadable(item: HistItem) {
    item.readable
  }

  /** The history entries in `sorted(..., reverse=True)` order. */
  function SortedHistory(items: seq<HistItem>): (r: seq<HistItem>)
    ensures SortedDesc(r, HistLe)
    ensures multiset(r) == multiset(items)
  {
    HistLeIsTotalPreorder();
    SortDesc(items, HistLe)
  }

  /** The entries whose changes are reported: the readable ones among the
      first `maxEntries` in descending path order, each as often as it
      occurs there, still in that order. */
  function NewestReadable(items: seq<HistItem>, maxEntries: int): (kept: seq<HistItem>)
    ensures SortedDesc(kept, HistLe)
    ensures maxEntries >= 0 ==> |kept| <= maxEntries
    ensures forall item :: multiset(kept)[item] ==
              if item.readable then multiset(SliceTo(SortedHistory(items), maxEntries))[item] else 0
  {
    var newest := SliceTo(SortedHistory(items), maxEntries);
    FilterCounts(newest, IsReadable);
    FilterSorted(newest, IsReadable, HistLe);
    Filter(newest, IsReadable)
  }

  /** The history part of the summary: entries in descending path order,
      the first `maxEntries` of them (`[:maxEntries]`), unreadable ones
      skipped. `None` stands for a missing history directory. */
  function HistoryChanges(hist: Option<seq<HistItem>>, maxEntries: int): (r: seq<Change>)
    ensures hist.None? ==> r == []
    ensures maxEntries >= 0 ==> |r| <= maxEntries
    ensures forall c :: c in r ==> c.kind == History
    ensures hist.Some? ==>
              forall c :: c in r ==> exists item :: item in hist.value && item.readable && c == HistoryChange(item)
    ensures hist.Some? ==>
              forall item :: item in SliceTo(SortedHistory(hist.value), maxEntries) && item.readable ==>
                HistoryChange(item) in r
    ensures hist.Some? ==>
              var kept := NewestReadable(hist.value, maxEntries);
              |r| == |kept| && forall i :: 0 <= i < |r| ==> r[i] == HistoryChange(kept[i])
  {
    match hist
    case None => []
    case Some(items) =>
      var kept := NewestReadable(items, maxEntries);
      KeptAreReadableItems(items, maxEntries);
      RenderedFromItems(items, kept);
      forall item | item in SliceTo(SortedHistory(items), maxEntries) && item.readable
        ensures HistoryChange(item) in MapHistory(kept)
      {
        assert item in multiset(kept);
        var i :| 0 <= i < |kept| && kept[i] == item;
        assert MapHistory(kept)[i] == HistoryChange(item);
      }
      MapHistory(kept)
  }

  lemma RenderedFromItems(items: seq<HistItem>, kept: seq<HistItem>)
    requires forall item :: item in kept ==> item in items && item.readable
    ensures forall c :: c in MapHistory(kept) ==>
              exists item :: item in items && item.readable && c == HistoryChange(item)
  {
    var changes := MapHistory(kept);
    forall c | c in changes
      ensures exists item :: item in items && item.readable && c == HistoryChange(item)
    {
      var i :| 0 <= i < |changes| && changes[i] == c;
      assert kept[i] in kept && changes[i] == HistoryChange(kept[i]);
    }
  }

  /** The entries that survive sorting, the `[:maxEntries]` cut and the
      readability filter are readable entries of the directory. */
  lemma KeptAreReadableItems(items: seq<HistItem>, maxEntries: int)
    ensures forall item :: item in NewestReadable(items, maxEntries) ==> item in items && item.readable
  {
    var kept := NewestReadable(items, maxEntries);
    var sorted := SortedHistory(items);
    var newest := SliceTo(sorted, maxEntries);
    forall item | item in kept ensures item in items && item.readable {
      assert item in multiset(kept);
      assert item in multiset(newest);
      assert item in sorted;
      assert item in multiset(sorted);
    }
  }
}
