/**
 * The Previous/Next clamping shared by the lesson tabs and the practice
 * questions: `Math.max(0, i - 1)` and `Math.min(n - 1, i + 1)`.
 */
module Navigation {

  /** `Math.max(0, i - 1)`. */
  function Previous(i: nat): (r: nat)
  {
    if i - 1 < 0 then 0 else i - 1
  }

  /** `Math.min(n - 1, i + 1)` for a list of `n` items. */
  function Next(i: nat, n: nat): (r: nat)
    requires 0 < n
  {
    if n - 1 < i + 1 then n - 1 else i + 1
  }

  /** Both moves keep an index of an `n`-item list within `[0, n - 1]`. */
  lemma MovesStayInRange(i: nat, n: nat)
    requires i < n
    ensures Previous(i) < n && Next(i, n) < n
  {
  }

  /** Previous steps back by one except at 0, where it stays; Next steps on except at the end. */
  lemma MovesStepByOne(i: nat, n: nat)
    requires i < n
    ensures Previous(i) == if i == 0 then 0 else i - 1
    ensures Next(i, n) == if i == n - 1 then i else i + 1
  {
  }

  /** From any index but the last, Next then Previous comes back. */
  lemma NextThenPrevious(i: nat, n: nat)
    requires i + 1 < n
    ensures Previous(Next(i, n)) == i
  {
  }

  /** From any index but the first, Previous then Next comes back. */
  lemma PreviousThenNext(i: nat, n: nat)
    requires 0 < i < n
    ensures Next(Previous(i), n) == i
  {
  }
}
