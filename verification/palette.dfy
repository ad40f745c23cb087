/** `PASTEL_BG` and `paletteColor` of frontend/lib/utils/palette.ts: five
    background colours indexed by the absolute value of an integer modulo
    five. */
module Palette {

  const PastelBg: seq<string> := ["#E5D9F2", "#D1E9F6", "#FFF8DE", "#FFEAEA", "#F5EFFF"]

  function Abs(i: int): nat {
    if i < 0 then -i else i
  }

  function PaletteColor(index: int): (c: string)
    ensures c in PastelBg
  {
    PastelBg[Abs(index) % |PastelBg|]
  }

  /** The first five indices pick the entries in table order. */
  lemma InTableOrder(i: int)
    requires 0 <= i < |PastelBg|
    ensures PaletteColor(i) == PastelBg[i]
  {
  }

  /** A negative index picks the colour of its absolute value. */
  lemma Symmetric(i: int)
    ensures PaletteColor(-i) == PaletteColor(i)
  {
  }

  /** Five steps on give the same colour, as long as the step does not
      cross zero. */
  lemma Periodic(i: int)
    requires i >= 0 || i + 5 <= 0
    ensures PaletteColor(i + 5) == PaletteColor(i)
  {
    if i >= 0 {
      assert (i + 5) % 5 == i % 5;
    } else {
      assert (-i) % 5 == (-(i + 5)) % 5 by {
        assert -i == -(i + 5) + 5;
      }
    }
  }

  /** Across zero the period breaks: -1 gives entry 1, 4 gives entry 4. */
  lemma PeriodBreaksAtZero()
    ensures PaletteColor(-1 + 5) != PaletteColor(-1)
  {
    assert PaletteColor(4) == PastelBg[4];
    assert PaletteColor(-1) == PastelBg[1];
  }
}
