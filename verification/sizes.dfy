/** The unit choice shared by `format_file_size` (gui/qubes_remote_ui.py) and
    `fmt_size` (gui2/qubes_admin_ui.py): a loop over B, KB, MB, GB that
    returns at the first unit whose scaled value is below 1024, dividing by
    1024.0 between rounds, and TB after the loop. */
module SizeFormat {
  import opened PyStr

  datatype Unit = B | KB | MB | GB | TB

  /** How a size is rendered. Below 1024 bytes the text is exact; above it
      the text is a one-decimal float followed by the unit name, of which
      only the unit is modelled. */
  datatype SizeText = Exact(text: string) | Scaled(unit: Unit)

  const KiB: int := 1024
  const MiB: int := 1024 * 1024
  const GiB: int := 1024 * 1024 * 1024
  const TiB: int := 1024 * 1024 * 1024 * 1024

  function Abs(n: int): nat {
    if n < 0 then -n else n
  }

  function AbsReal(x: real): real {
    if x < 0.0 then -x else x
  }

  function LoopUnit(k: nat): Unit
    requires k < 4
  {
    [B, KB, MB, GB][k]
  }

  /** Rounds `k` .. 3 of the loop on the already-divided value `x`.
      Dividing by 1024 is exact in binary floating point, and every
      comparison that decides the unit involves a magnitude below 2^53,
      so exact rationals decide the same unit as the floats do. */
  function UnitLoop(x: real, k: nat): Unit
    requires k <= 4
    decreases 4 - k
  {
    if k == 4 then TB
    else if AbsReal(x) < 1024.0 then LoopUnit(k)
    else UnitLoop(x / 1024.0, k + 1)
  }

  /** The unit the loop settles on for an integer byte count `n`: the
      first unit whose next power of 1024 exceeds `|n|`. */
  function SizeUnit(n: int): (u: Unit)
    ensures u == B <==> Abs(n) < KiB
    ensures u == KB <==> KiB <= Abs(n) < MiB
    ensures u == MB <==> MiB <= Abs(n) < GiB
    ensures u == GB <==> GiB <= Abs(n) < TiB
    ensures u == TB <==> TiB <= Abs(n)
  {
    var x := n as real;
    assert AbsReal(x) == Abs(n) as real;
    assert AbsReal(x / 1024.0) == AbsReal(x) / 1024.0;
    assert AbsReal(x / 1024.0 / 1024.0) == AbsReal(x) / 1048576.0;
    assert AbsReal(x / 1024.0 / 1024.0 / 1024.0) == AbsReal(x) / 1073741824.0;
    UnitLoop(x, 0)
  }

  /** The text of an exact byte count: Python's `f"{n} B"`. */
  function ByteText(n: int): (r: string)
    ensures EndsWith(r, " B")
    ensures var digits := r[..|r| - 2];
            && |digits| > 0
            && (digits[0] == '-' || IsDigit(digits[0]))
            && (forall i :: 0 < i < |digits| ==> IsDigit(digits[i]))
            && ParseInt(digits) == n
  {
    var d := IntToStr(n);
    assert (d + " B")[..|d|] == d;
    d + " B"
  }
}
