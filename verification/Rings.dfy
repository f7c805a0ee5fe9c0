/** Positions on a ring of n places, each of which sends to the next one. */
module Rings {
  function Next(n: nat, i: nat): (j: nat)
    requires i < n
    ensures j < n && Prev(n, j) == i
  {
    if i + 1 == n then 0 else i + 1
  }

  function Prev(n: nat, i: nat): (j: nat)
    requires i < n
    ensures j < n
  {
    if i == 0 then n - 1 else i - 1
  }
}
