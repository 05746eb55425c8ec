/**
 * The slot-index convention the pages share with the backend's weekly grid:
 * five days (Monday to Friday) of seven one-hour periods, and the period at
 * day d, hour h is numbered d·7 + h, so that the week is 0, 1, ..., 34.
 */
module SlotGrid {
  import opened Common

  const Days: nat := 5
  const HoursPerDay: nat := 7
  const WeekSlots: nat := 35

  predicate InGrid(d: int, h: int) {
    0 <= d < Days && 0 <= h < HoursPerDay
  }

  /** `dayIndex * 7 + hourIndex`, the number of a cell of the grid. */
  function FlatIndex(d: int, h: int): int {
    d * 7 + h
  }

  /** The numbering is injective on the grid, and a cell's number gives back its day and hour. */
  lemma FlatIndexDecodes(d: int, h: int)
    requires InGrid(d, h)
    ensures 0 <= FlatIndex(d, h) < WeekSlots
    ensures FlatIndex(d, h) / 7 == d && FlatIndex(d, h) % 7 == h
  {
    DivModUnique(FlatIndex(d, h), 7, d, h);
  }

  /** `d·7 + h` over the 5×7 grid is a bijection onto [0, 35); its inverse is `(⌊x/7⌋, x mod 7)`. */
  lemma FlatIndexBijection()
    ensures forall d, h :: InGrid(d, h) ==> 0 <= FlatIndex(d, h) < WeekSlots
    ensures forall d1, h1, d2, h2 :: InGrid(d1, h1) && InGrid(d2, h2) && FlatIndex(d1, h1) == FlatIndex(d2, h2) ==> d1 == d2 && h1 == h2
    ensures forall x :: 0 <= x < WeekSlots ==> InGrid(x / 7, x % 7) && FlatIndex(x / 7, x % 7) == x
  {
    forall d, h | InGrid(d, h)
      ensures 0 <= FlatIndex(d, h) < WeekSlots
    {
      FlatIndexDecodes(d, h);
    }
    forall d1, h1, d2, h2 | InGrid(d1, h1) && InGrid(d2, h2) && FlatIndex(d1, h1) == FlatIndex(d2, h2)
      ensures d1 == d2 && h1 == h2
    {
      FlatIndexDecodes(d1, h1);
      FlatIndexDecodes(d2, h2);
    }
  }
}
