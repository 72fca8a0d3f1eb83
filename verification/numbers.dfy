/** Integer helpers for pagination. */
module Numbers {
  /** `Math.ceil(a / b)` for a positive divisor: the fewest pages of `b` that hold `a` items. */
  function CeilDiv(a: nat, b: nat): (r: nat)
    requires b >= 1
    ensures r * b >= a
    ensures r == 0 || (r - 1) * b < a
    ensures a == 0 <==> r == 0
  {
    var r := (a + b - 1) / b;
    var m := (a + b - 1) % b;
    assert a + b - 1 == r * b + m && 0 <= m < b;
    assert (r - 1) * b == r * b - b;
    r
  }

  /** The two bounds single the ceiling out: any count of pages meeting them is `CeilDiv`. */
  lemma CeilDivUnique(a: nat, b: nat, q: nat)
    requires b >= 1 && q * b >= a && (q == 0 || (q - 1) * b < a)
    ensures q == CeilDiv(a, b)
  {
    var r := CeilDiv(a, b);
    if q < r {
      MulMonotone(q, r - 1, b);
    } else if q > r {
      MulMonotone(r, q - 1, b);
    }
  }

  lemma MulMonotone(x: nat, y: nat, b: nat)
    requires x <= y
    ensures x * b <= y * b
  {
  }

  function Min(a: int, b: int): int {
    if a <= b then a else b
  }
}
