/** The key fingerprint written to `key-fingerprint.txt` by both git backup
    pushes instead of the key itself: first eight and last eight characters
    around `...`, or `***` for a key shorter than sixteen characters. */
module KeyMask {
  import opened PyStr

  const Shown: nat := 8
  const Ellipsis: string := "..."
  const Hidden: string := "***"

  predicate NoDots(s: string) {
    forall i :: 0 <= i < |s| ==> s[i] != '.'
  }

  /** `key[:8] + "..." + key[-8:] if len(key) >= 16 else "***"`, applied to
      the stripped contents of the key file. */
  function Fingerprint(key: string): (fp: string)
    ensures |key| >= 2 * Shown ==> |fp| == 2 * Shown + |Ellipsis|
    ensures |key| >= 2 * Shown ==> fp[..Shown] == key[..Shown] && fp[|fp| - Shown..] == key[|key| - Shown..]
    ensures |key| >= 2 * Shown ==> fp[Shown..Shown + |Ellipsis|] == Ellipsis
    ensures |key| < 2 * Shown ==> fp == Hidden
  {
    if |key| >= 2 * Shown then key[..Shown] + Ellipsis + key[|key| - Shown..] else Hidden
  }

  /** The whole key never appears in its fingerprint when it is longer than
      the fingerprint, or when it has no dots and at least four characters
      (every 64-character hex key qualifies on both counts). */
  lemma FingerprintHidesKey(key: string)
    requires |key| > 2 * Shown + |Ellipsis| || (NoDots(key) && |key| > |Hidden|)
    ensures !Contains(Fingerprint(key), key)
  {
    var fp := Fingerprint(key);
    if Contains(fp, key) {
      var k := ContainsWitness(fp, key);
      if 2 * Shown <= |key| <= 2 * Shown + |Ellipsis| {
        WindowCoversDot(key, k);
      }
    }
  }

  /** A window of 16 to 19 characters of a 19-character fingerprint covers
      one of the three dots. */
  lemma WindowCoversDot(key: string, k: nat)
    requires 2 * Shown <= |key| <= 2 * Shown + |Ellipsis| && NoDots(key)
    requires k + |key| <= 2 * Shown + |Ellipsis|
    ensures Fingerprint(key)[k..k + |key|] != key
  {
    var fp := Fingerprint(key);
    var d := if k <= Shown then Shown - k else 0;
    assert fp[k..k + |key|][d] == fp[k + d] == '.';
    assert key[d] != '.';
  }

  /** The fingerprint reveals the first and last eight characters of a
      key of sixteen or more, and nothing else: two keys share a
      fingerprint exactly when both are short or both agree on those
      sixteen characters. */
  lemma FingerprintDeterminesEnds(k1: string, k2: string)
    ensures Fingerprint(k1) == Fingerprint(k2) <==>
              (|k1| < 2 * Shown && |k2| < 2 * Shown)
              || (&& |k1| >= 2 * Shown && |k2| >= 2 * Shown
                  && k1[..Shown] == k2[..Shown] && k1[|k1| - Shown..] == k2[|k2| - Shown..])
  {
    var f1, f2 := Fingerprint(k1), Fingerprint(k2);
    if |k1| >= 2 * Shown && |k2| >= 2 * Shown && f1 == f2 {
      assert k1[..Shown] == f1[..Shown] == k2[..Shown];
      assert k1[|k1| - Shown..] == f1[|f1| - Shown..] == k2[|k2| - Shown..];
    }
  }
}
