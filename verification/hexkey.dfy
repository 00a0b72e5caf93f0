/** The authentication-key format check `valid_hex_key`, identical in
    gui/qubes_remote_ui.py and gui2/qubes_admin_ui.py: a length test of 64
    characters followed by CPython's `int(key, 16)`, which accepts more than
    bare hex digits. */
module HexKey {
  import opened PyStr

  const KeyLength: nat := 64

  predicate IsHexDigit(c: char) {
    ('0' <= c <= '9') || ('a' <= c <= 'f') || ('A' <= c <= 'F')
  }

  predicate AllHex(s: string) {
    forall i :: 0 <= i < |s| ==> IsHexDigit(s[i])
  }

  /** The whitespace `int()` skips around its digits: the ASCII characters
      tab through carriage return and space, and every non-ASCII character
      `str.isspace()` accepts. The ASCII separators 0x1C-0x1F count as
      whitespace for `str.strip()` but not for `int()`. */
  predicate IsIntSpace(c: char) {
    IsSpace(c) && !('\U{1C}' <= c <= '\U{1F}')
  }

  /** Hex digits, where a single underscore may stand between two digits. */
  predicate DigitRun(s: string)
    decreases |s|
  {
    && |s| > 0
    && IsHexDigit(s[0])
    && (|s| == 1 || DigitRun(s[1..]) || (s[1] == '_' && DigitRun(s[2..])))
  }

  predicate HasHexPrefix(u: string) {
    |u| >= 2 && u[0] == '0' && (u[1] == 'x' || u[1] == 'X')
  }

  /** The strings `int(s, 16)` accepts: surrounding whitespace, an optional
      sign, an optional `0x`/`0X` prefix that one underscore may follow, and
      a digit run. */
  predicate PyIntBase16(s: string) {
    var t := Trim(s, IsIntSpace);
    var u := if |t| > 0 && (t[0] == '+' || t[0] == '-') then t[1..] else t;
    if HasHexPrefix(u) then
      var b := u[2..];
      DigitRun(b) || (|b| > 0 && b[0] == '_' && DigitRun(b[1..]))
    else DigitRun(u)
  }

  /** `valid_hex_key(key)`: False unless the length is 64, then whether
      `int(key, 16)` parses. */
  function ValidHexKey(key: string): (r: bool)
    ensures |key| != KeyLength ==> !r
    ensures |key| == KeyLength && AllHex(key) ==> r
  {
    if |key| != KeyLength then false
    else
      HexDigitsAccepted(key);
      PyIntBase16(key)
  }

  /** What the function's docstring and the command-line tool promise:
      exactly 64 characters, each a hex digit of either case. */
  predicate StrictHexKey(key: string) {
    |key| == KeyLength && AllHex(key)
  }

  /** The characters beyond hex digits that the `int()` grammar lets in. */
  predicate IsIntExtra(c: char) {
    IsIntSpace(c) || c == '+' || c == '-' || c == 'x' || c == 'X' || c == '_'
  }

  predicate IsIntChar(c: char) {
    IsHexDigit(c) || IsIntExtra(c)
  }

  predicate NoIntExtras(s: string) {
    forall i :: 0 <= i < |s| ==> !IsIntExtra(s[i])
  }

  predicate AllIntChars(s: string) {
    forall i :: 0 <= i < |s| ==> IsIntChar(s[i])
  }

  // ---------------------------------------------------------------------------
  // The digit-run grammar
  // ---------------------------------------------------------------------------

  lemma {:induction false} AllHexIsDigitRun(s: string)
    requires |s| > 0 && AllHex(s)
    ensures DigitRun(s)
    decreases |s|
  {
    if |s| > 1 {
      AllHexIsDigitRun(s[1..]);
    }
  }

  lemma {:induction false} DigitRunChars(s: string)
    requires DigitRun(s)
    ensures forall i :: 0 <= i < |s| ==> IsHexDigit(s[i]) || s[i] == '_'
    ensures IsHexDigit(s[0]) && IsHexDigit(s[|s| - 1])
    decreases |s|
  {
    if |s| > 1 {
      if DigitRun(s[1..]) {
        DigitRunChars(s[1..]);
        assert forall i :: 1 <= i < |s| ==> s[i] == s[1..][i - 1];
      } else {
        DigitRunChars(s[2..]);
        assert forall i :: 2 <= i < |s| ==> s[i] == s[2..][i - 2];
      }
    }
  }

  /** A bare run of hex digits is accepted by `int(_, 16)` unchanged. */
  lemma HexDigitsAccepted(s: string)
    ensures |s| > 0 && AllHex(s) ==> PyIntBase16(s)
  {
    if |s| > 0 && AllHex(s) {
      TrimOfTrimmed(s, IsIntSpace);
      AllHexIsDigitRun(s);
    }
  }

  // ---------------------------------------------------------------------------
  // Properties of valid_hex_key
  // ---------------------------------------------------------------------------

  /** The checks the tests make: 63 or 65 characters and non-hex letters are
      rejected, upper- and lower-case hex of length 64 is accepted. */
  lemma {:induction false} KnownKeys(n: nat, c: char)
    requires n != KeyLength
    ensures !ValidHexKey(seq(n, _ => 'a'))
    ensures IsHexDigit(c) ==> ValidHexKey(seq(KeyLength, _ => c))
    ensures ValidHexKey(seq(KeyLength, _ => c)) ==> IsHexDigit(c)
  {
    var k := seq(KeyLength, _ => c);
    if ValidHexKey(k) {
      OnlyIntCharacters(k);
      assert IsIntChar(k[0]);
      if !IsHexDigit(c) {
        NoHexDigitRejected(k);
      }
    }
  }

  lemma NoHexDigitRejected(key: string)
    requires forall i :: 0 <= i < |key| ==> !IsHexDigit(key[i])
    ensures !ValidHexKey(key)
  {
    if ValidHexKey(key) {
      var i := HasHexDigit(key);
    }
  }

  /** An accepted key holds at least one hex digit. */
  lemma HasHexDigit(key: string) returns (i: nat)
    requires ValidHexKey(key)
    ensures i < |key| && IsHexDigit(key[i])
  {
    var t, a := TrimmedCore(key);
    var u := if |t| > 0 && (t[0] == '+' || t[0] == '-') then t[1..] else t;
    var off := if |t| > 0 && (t[0] == '+' || t[0] == '-') then 1 else 0;
    assert u == t[off..];
    if HasHexPrefix(u) {
      var b := u[2..];
      if DigitRun(b) {
        DigitRunChars(b);
        i := a + off + 2;
        assert key[i] == b[0];
      } else {
        DigitRunChars(b[1..]);
        i := a + off + 3;
        assert key[i] == b[1..][0];
      }
    } else {
      DigitRunChars(u);
      i := a + off;
      assert key[i] == u[0];
    }
  }

  /** Names the trimmed core `t` of `key` and where it sits. */
  lemma TrimmedCore(key: string) returns (t: string, a: nat)
    ensures t == Trim(key, IsIntSpace)
    ensures a + |t| <= |key| && t == key[a..a + |t|]
    ensures forall i :: 0 <= i < a ==> IsIntSpace(key[i])
    ensures forall i :: a + |t| <= i < |key| ==> IsIntSpace(key[i])
  {
    var s := TrimStart(key, IsIntSpace);
    t := TrimEnd(s, IsIntSpace);
    a := |key| - |s|;
    assert s == key[a..];
    assert t == s[..|t|];
    forall i | a + |t| <= i < |key| ensures IsIntSpace(key[i]) {
      assert key[i] == s[i - a];
    }
  }

  /** The unsigned part after the optional sign uses only grammar characters. */
  lemma UnsignedChars(u: string)
    requires if HasHexPrefix(u) then
               DigitRun(u[2..]) || (|u[2..]| > 0 && u[2..][0] == '_' && DigitRun(u[2..][1..]))
             else DigitRun(u)
    ensures AllIntChars(u)
  {
    if HasHexPrefix(u) {
      var b := u[2..];
      if DigitRun(b) {
        DigitRunChars(b);
      } else {
        DigitRunChars(b[1..]);
        assert forall i :: 1 <= i < |b| ==> b[i] == b[1..][i - 1];
      }
      assert forall i :: 2 <= i < |u| ==> u[i] == b[i - 2];
    } else {
      DigitRunChars(u);
    }
  }

  /** Every character of an accepted key is a hex digit or one of the
      extras the `int()` grammar allows. */
  lemma OnlyIntCharacters(key: string)
    requires ValidHexKey(key)
    ensures AllIntChars(key)
  {
    var t, a := TrimmedCore(key);
    var signed := |t| > 0 && (t[0] == '+' || t[0] == '-');
    var off := if signed then 1 else 0;
    var u := t[off..];
    UnsignedChars(u);
    assert AllIntChars(t) by {
      forall i | 0 <= i < |t| ensures IsIntChar(t[i]) {
        if i >= off {
          assert t[i] == u[i - off];
        }
      }
    }
    forall i | 0 <= i < |key| ensures IsIntChar(key[i]) {
      if a <= i < a + |t| {
        assert key[i] == t[i - a];
      }
    }
  }

  /** `valid_hex_key` accepts `"0x"` followed by 62 hex digits: a string
      that is not a 64-digit hex key. */
  lemma PrefixedKeyAccepted(digits: string)
    requires |digits| == KeyLength - 2 && AllHex(digits)
    ensures ValidHexKey("0x" + digits)
    ensures !StrictHexKey("0x" + digits)
  {
    var k := "0x" + digits;
    assert !IsIntSpace(k[|k| - 1]) by {
      assert k[|k| - 1] == digits[|digits| - 1];
    }
    TrimOfTrimmed(k, IsIntSpace);
    assert k[2..] == digits;
    AllHexIsDigitRun(digits);
    assert !IsHexDigit(k[1]);
  }

  /** The intended check is exactly `valid_hex_key` restricted to keys that
      use none of the `int()` extras: both directions. */
  lemma StrictIsValidWithoutExtras(key: string)
    ensures StrictHexKey(key) <==> ValidHexKey(key) && NoIntExtras(key)
  {
    if StrictHexKey(key) {
      forall i | 0 <= i < |key| ensures !IsIntExtra(key[i]) {
        HexIsNotExtra(key[i]);
      }
    }
    if ValidHexKey(key) && NoIntExtras(key) {
      OnlyIntCharacters(key);
      forall i | 0 <= i < |key| ensures IsHexDigit(key[i]) {
        assert IsIntChar(key[i]) && !IsIntExtra(key[i]);
      }
    }
  }

  lemma HexIsNotExtra(c: char)
    requires IsHexDigit(c)
    ensures !IsIntExtra(c)
  {
  }
}
