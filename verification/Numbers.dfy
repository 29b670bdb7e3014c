/** Small facts about numbers. */
module Numbers {

  function Min(a: int, b: int): int { if a < b then a else b }

  function Max(a: int, b: int): int { if a > b then a else b }

  lemma ProductNonNegative(x: int, y: int)
    requires x >= 0 && y >= 0
    ensures x * y >= 0
  {}

  /** Multiplying a difference out. */
  lemma Differences(x: int, y: int, w: int)
    ensures (x - y) * w == x * w - y * w && w * (x - y) == w * x - w * y
  {}

  lemma MultiplesAscend(x: int, y: int, w: int)
    requires w >= 0
    ensures x <= y ==> x * w <= y * w
  {}
}
