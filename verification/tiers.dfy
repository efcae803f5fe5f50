/** Marker colour tiers of the dashboard (app.py): one scale keyed on a
    pincode's share of customers, one on its customer count. */
module MarkerTiers {

  datatype Color = LightBlue | LightGreen | Orange | Red

  /** Position of a colour on the scale, coolest first. */
  function Rank(c: Color): nat {
    match c
    case LightBlue => 0
    case LightGreen => 1
    case Orange => 2
    case Red => 3
  }

  /** Percentage mode: 10 % and more red, 5 % orange, 1 % light green. */
  function PercentageColor(percentage: real): Color {
    if percentage >= 10.0 then Red
    else if percentage >= 5.0 then Orange
    else if percentage >= 1.0 then LightGreen
    else LightBlue
  }

  /** Count mode: more than 1000 red, more than 500 orange, more than 100
      light green. */
  function CountColor(count: int): Color {
    if count > 1000 then Red
    else if count > 500 then Orange
    else if count > 100 then LightGreen
    else LightBlue
  }

  /** A threshold table: the colour of the first row whose threshold the value
      reaches, light blue when it reaches none. */
  function FirstReached<N>(table: seq<(N, Color)>, reaches: (N, N) -> bool, x: N): Color {
    if table == [] then LightBlue
    else if reaches(x, table[0].0) then table[0].1
    else FirstReached(table[1..], reaches, x)
  }

  predicate AtLeast(x: real, threshold: real) { x >= threshold }
  predicate Above(x: int, threshold: int) { x > threshold }

  const PercentageTable: seq<(real, Color)> := [(10.0, Red), (5.0, Orange), (1.0, LightGreen)]
  const CountTable: seq<(int, Color)> := [(1000, Red), (500, Orange), (100, LightGreen)]

  /** The percentage scale is the table 10/5/1 read with "at least". */
  lemma PercentageColorIsTable(percentage: real)
    ensures PercentageColor(percentage) == FirstReached(PercentageTable, AtLeast, percentage)
  {
    assert PercentageTable[1..] == [(5.0, Orange), (1.0, LightGreen)];
    assert PercentageTable[1..][1..] == [(1.0, LightGreen)];
  }

  /** The count scale is the table 1000/500/100 read with "more than". */
  lemma CountColorIsTable(count: int)
    ensures CountColor(count) == FirstReached(CountTable, Above, count)
  {
    assert CountTable[1..] == [(500, Orange), (100, LightGreen)];
    assert CountTable[1..][1..] == [(100, LightGreen)];
  }

  /** A larger share never gets a cooler colour. */
  lemma PercentageColorMonotone(p: real, q: real)
    requires p <= q
    ensures Rank(PercentageColor(p)) <= Rank(PercentageColor(q))
  {
  }

  /** A larger count never gets a cooler colour. */
  lemma CountColorMonotone(m: int, n: int)
    requires m <= n
    ensures Rank(CountColor(m)) <= Rank(CountColor(n))
  {
  }

  /** The boundaries: a share of exactly 10, 5 or 1 already takes the warmer
      colour; a count of exactly 1000, 500 or 100 does not. */
  lemma TierBoundaries()
    ensures PercentageColor(10.0) == Red && PercentageColor(5.0) == Orange
    ensures PercentageColor(1.0) == LightGreen && PercentageColor(0.99) == LightBlue
    ensures CountColor(1001) == Red && CountColor(1000) == Orange
    ensures CountColor(501) == Orange && CountColor(500) == LightGreen
    ensures CountColor(101) == LightGreen && CountColor(100) == LightBlue
  {
  }
}
