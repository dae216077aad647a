/** Page rounding. */
module Pages {
  const PAGE := 0x1000

  function TruncPg(x: nat): (r: nat)
    ensures r <= x < r + PAGE && r % PAGE == 0
  {
    x - x % PAGE
  }

  function RoundPg(x: nat): (r: nat)
    ensures x <= r < x + PAGE && r % PAGE == 0
  {
    TruncPg(x + PAGE - 1)
  }
}
