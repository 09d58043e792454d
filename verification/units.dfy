/** The base-60 units the timer counts in. */
module Units {

  const SecondsPerMinute: int := 60
  const MinutesPerHour: int := 60

  /**
   Splitting `q * 60 + m` by 60, with `m` a remainder in 0..59, gives back
   `q` and `m`. Minutes of the day split into hours and minutes this way,
   and seconds left split into minutes and seconds.
   */
  lemma DivModSixty(k: int, q: int, m: int)
    requires 0 <= m < 60 && k == q * 60 + m
    ensures k / 60 == q && k % 60 == m
  {
  }
}
