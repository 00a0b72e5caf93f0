/** The member-name safety gate that both restore functions run over a
    backup archive's member names before extracting anything. */
module ArchiveSafety {
  import opened PyStr

  /** What opening a backup archive yields: it does not exist, opening or
      listing it raises (the exception text), or its member names in
      archive order. */
  datatype ArchiveFile = Absent | Unreadable(error: string) | Members(names: seq<string>)

  /** The `(success, message)` pair a restore returns, together with
      whether control reached `extractall`. */
  datatype RestoreReport = RestoreReport(ok: bool, message: string, extracted: bool)

  /** A member name is refused when it is absolute or contains `..`
      anywhere, even inside a longer component. */
  predicate IsUnsafeMember(m: string) {
    StartsWith(m, "/") || Contains(m, "..")
  }

  /** The index of the first unsafe member in archive order, as the
      restore loops `for m in members` find it. */
  function FirstUnsafe(names: seq<string>): (r: Option<nat>)
    ensures r.None? <==> forall i :: 0 <= i < |names| ==> !IsUnsafeMember(names[i])
    ensures r.Some? ==> r.value < |names| && IsUnsafeMember(names[r.value])
    ensures r.Some? ==> forall j :: 0 <= j < r.value ==> !IsUnsafeMember(names[j])
  {
    if |names| == 0 then None
    else if IsUnsafeMember(names[0]) then Some(0)
    else
      match FirstUnsafe(names[1..])
      case None => None
      case Some(i) => Some(i + 1)
  }

  // ---------------------------------------------------------------------------
  // What extraction does with a name: join it to the target directory
  // ---------------------------------------------------------------------------

  /** The `/`-separated components of a member name. */
  function Components(m: string): (r: seq<string>)
    ensures |r| > 0
    decreases |m|
  {
    var i := Find(m, '/');
    if i < 0 then [m] else [m[..i]] + Components(m[i + 1..])
  }

  /** Walking the components from `depth` levels below the target directory
      never climbs above it: `..` goes up a level, `` and `.` stay, any
      other component goes down a level. */
  predicate StaysBelow(comps: seq<string>, depth: nat)
    decreases |comps|
  {
    if |comps| == 0 then true
    else if comps[0] == ".." then depth > 0 && StaysBelow(comps[1..], depth - 1)
    else if comps[0] == "" || comps[0] == "." then StaysBelow(comps[1..], depth)
    else StaysBelow(comps[1..], depth + 1)
  }

  /** A member extracted from a name like this lands inside the restore
      directory: it is relative and never resolves above its root. */
  predicate LandsInside(m: string) {
    !StartsWith(m, "/") && StaysBelow(Components(m), 0)
  }

  lemma {:induction false} ComponentsAreSubstrings(m: string)
    ensures forall c :: c in Components(m) ==> Contains(m, c)
    decreases |m|
  {
    var i := Find(m, '/');
    if i < 0 {
      assert m[0..|m|] == m;
      ContainsAt(m, m, 0);
    } else {
      var rest := m[i + 1..];
      ComponentsAreSubstrings(rest);
      assert m[0..i] == m[..i];
      ContainsAt(m, m[..i], 0);
      forall c | c in Components(rest) ensures Contains(m, c) {
        ContainsInSuffix(m, i + 1, c);
      }
    }
  }

  /** What a suffix of `m` contains, `m` contains. */
  lemma ContainsInSuffix(m: string, j: nat, c: string)
    requires j <= |m| && Contains(m[j..], c)
    ensures Contains(m, c)
  {
    var k := ContainsWitness(m[j..], c);
    assert m[j + k..j + k + |c|] == m[j..][k..k + |c|];
    ContainsAt(m, c, j + k);
  }

  lemma {:induction false} NoParentStaysBelow(comps: seq<string>, depth: nat)
    requires ".." !in comps
    ensures StaysBelow(comps, depth)
    decreases |comps|
  {
    if |comps| > 0 {
      assert comps[0] != "..";
      NoParentStaysBelow(comps[1..], if comps[0] == "" || comps[0] == "." then depth else depth + 1);
    }
  }

  /** Every name the gate lets through is extracted inside the restore
      directory. */
  lemma SafeMemberLandsInside(m: string)
    requires !IsUnsafeMember(m)
    ensures LandsInside(m)
  {
    ComponentsAreSubstrings(m);
    NoParentStaysBelow(Components(m), 0);
  }

  /** The gate is stricter than containment: `a..b` is refused although it
      is an ordinary file name. */
  lemma GateIsConservative()
    ensures IsUnsafeMember("a..b") && LandsInside("a..b")
  {
    assert "a..b"[1..][..2] == "..";
    assert Components("a..b") == ["a..b"];
  }
}
