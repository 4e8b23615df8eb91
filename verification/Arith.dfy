/** Integer widths and the rounding rules every quote is built from.

    Rounded division is used through its two adjunctions only: a floor is at least `k` exactly
    when `k` whole divisors fit, a ceiling is at most `k` exactly when `k` divisors cover.
 */
module Arith {
  const U64_MAX: nat := 0xFFFF_FFFF_FFFF_FFFF
  const U128_MAX: nat := 0xFFFF_FFFF_FFFF_FFFF_FFFF_FFFF_FFFF_FFFF
  /** One in the Q64.64 fixed-point format. */
  const Q64: nat := 0x1_0000_0000_0000_0000
  /** Basis points in a whole. */
  const BPS: nat := 10_000

  function Min(a: int, b: int): int {
    if a <= b then a else b
  }

  function Max(a: int, b: int): int {
    if a >= b then a else b
  }

  function Abs(a: int): nat {
    if a < 0 then -a else a
  }

  /** Subtraction that stops at zero. */
  function SatSub(a: nat, b: nat): nat {
    if a >= b then a - b else 0
  }

  /** `k * d`, under a name the solver can match. */
  function Multiple(k: nat, d: nat): nat {
    k * d
  }

  /** `q` is how often `d` goes into `n`. */
  predicate IsQuotient(n: nat, d: nat, q: nat) {
    forall k :: 0 <= k <= n ==> (Multiple(k, d) <= n <==> k <= q)
  }

  lemma QuotientIsIt(n: nat, d: nat)
    requires d > 0
    ensures n / d <= n && IsQuotient(n, d, n / d)
    ensures forall q :: 0 <= q <= n && IsQuotient(n, d, q) ==> q == n / d
  {
    var q := n / d;
    DivisionBounds(n, d);
    forall k | 0 <= k <= n ensures Multiple(k, d) <= n <==> k <= q {
      if k <= q { MulLe(k, q, d); } else { MulLe(q + 1, k, d); }
    }
    forall q' | 0 <= q' <= n && IsQuotient(n, d, q') ensures q' == q {
      assert Multiple(q, d) <= n <==> q <= q';
      assert Multiple(q', d) <= n <==> q' <= q;
    }
  }

  lemma DivisionBounds(n: nat, d: nat)
    requires d > 0
    ensures (n / d) * d <= n < (n / d) * d + d && n / d <= n
  {
    var q := n / d;
    assert n == q * d + n % d;
    MulLe(1, d, q);
  }

  /** Floor division, by the property every proof here uses. Division by an unknown makes the solver
      lose its way, and this definition tells it nothing until a multiple is named. */
  function FloorDiv(n: nat, d: nat): nat
    requires d > 0
  {
    QuotientIsIt(n, d);
    var q :| 0 <= q <= n && IsQuotient(n, d, q);
    q
  }

  function CeilDiv(n: nat, d: nat): nat
    requires d > 0
  {
    FloorDiv(n + d - 1, d)
  }

  /** It is the operator of the language. */
  lemma FloorIsQuotient(n: nat, d: nat)
    requires d > 0
    ensures FloorDiv(n, d) == n / d
    ensures n - FloorDiv(n, d) * d == n % d
  {
    QuotientIsIt(n, d);
    assert n == (n / d) * d + n % d;
  }

  lemma FloorBounds(n: nat, d: nat)
    requires d > 0
    ensures FloorDiv(n, d) * d <= n < FloorDiv(n, d) * d + d
  {
    hide IsQuotient;
    FloorIsQuotient(n, d);
    DivisionBounds(n, d);
  }

  lemma FloorAtLeast(n: nat, d: nat, k: nat)
    requires d > 0
    ensures k <= FloorDiv(n, d) <==> k * d <= n
  {
    hide FloorDiv;
    FloorBounds(n, d);
    if k <= FloorDiv(n, d) {
      MulLe(k, FloorDiv(n, d), d);
    } else {
      MulLe(FloorDiv(n, d) + 1, k, d);
    }
  }

  /** Evaluating a division, when the answer is at hand. */
  lemma FloorIs(n: nat, d: nat, q: nat)
    requires d > 0 && q * d <= n < q * d + d
    ensures FloorDiv(n, d) == q
  {
    hide FloorDiv;
    MulAdd(q, 1, d);
    FloorAtLeast(n, d, q);
    FloorAtLeast(n, d, q + 1);
  }

  lemma CeilIs(n: nat, d: nat, c: nat)
    requires d > 0 && c * d < n + d <= c * d + d
    ensures CeilDiv(n, d) == c
  {
    hide FloorDiv;
    FloorIs(n + d - 1, d, c);
  }

  lemma {:induction false} CeilAtMost(n: nat, d: nat, k: nat)
    requires d > 0
    ensures CeilDiv(n, d) <= k <==> n <= k * d
  {
    FloorAtLeast(n + d - 1, d, k + 1);
    assert (k + 1) * d == k * d + d;
  }

  lemma CeilBounds(n: nat, d: nat)
    requires d > 0
    ensures n <= CeilDiv(n, d) * d < n + d
  {
    FloorBounds(n + d - 1, d);
  }

  lemma MulLe(a: nat, b: nat, k: nat)
    requires a <= b
    ensures a * k <= b * k
  {
  }

  lemma MulPositive(a: nat, k: nat)
    requires a > 0 && k > 0
    ensures a * k > 0
  {
  }

  lemma MulAdd(a: int, b: int, k: int)
    ensures (a + b) * k == a * k + b * k && k * (a + b) == k * a + k * b
  {
  }

  lemma MulSub(a: int, b: int, k: int)
    ensures (a - b) * k == a * k - b * k && k * (a - b) == k * a - k * b
  {
  }

  lemma MulSwap(a: int, b: int, c: int)
    ensures a * b * c == a * (b * c) == b * (a * c) == c * (a * b)
  {
  }

  /** Positive factors cancel from an inequality. */
  lemma MulCancel(a: int, b: int, k: nat)
    requires k > 0 && a * k <= b * k
    ensures a <= b
  {
    MulSub(a, b, k);
    if a > b {
      MulPositive(a - b, k);
    }
  }

  lemma FloorMono(a: nat, b: nat, d: nat)
    requires d > 0 && a <= b
    ensures FloorDiv(a, d) <= FloorDiv(b, d)
  {
    FloorBounds(a, d);
    FloorAtLeast(b, d, FloorDiv(a, d));
  }

  lemma CeilMono(a: nat, b: nat, d: nat)
    requires d > 0 && a <= b
    ensures CeilDiv(a, d) <= CeilDiv(b, d)
  {
    FloorMono(a + d - 1, b + d - 1, d);
  }

  lemma WholesFit(a: nat, b: nat, d: nat, x: nat, y: nat)
    requires d > 0 && x * d <= a && y * d <= b
    ensures x + y <= FloorDiv(a + b, d)
  {
    MulAdd(x, y, d);
    FloorAtLeast(a + b, d, x + y);
  }

  lemma FloorSuperadditive(a: nat, b: nat, d: nat)
    requires d > 0
    ensures FloorDiv(a, d) + FloorDiv(b, d) <= FloorDiv(a + b, d)
  {
    FloorBounds(a, d);
    FloorBounds(b, d);
    WholesFit(a, b, d, FloorDiv(a, d), FloorDiv(b, d));
  }

  lemma CeilSubadditive(a: nat, b: nat, d: nat)
    requires d > 0
    ensures CeilDiv(a + b, d) <= CeilDiv(a, d) + CeilDiv(b, d)
  {
    CeilBounds(a, d);
    CeilBounds(b, d);
    MulAdd(CeilDiv(a, d), CeilDiv(b, d), d);
    CeilAtMost(a + b, d, CeilDiv(a, d) + CeilDiv(b, d));
  }

  /** A whole number moves in and out of a floor. */
  lemma FloorShift(n: nat, k: nat, d: nat)
    requires d > 0
    ensures FloorDiv(n + k * d, d) == FloorDiv(n, d) + k
  {
    FloorBounds(n, d);
    FloorAtLeast(n + k * d, d, FloorDiv(n, d) + k);
    FloorAtLeast(n + k * d, d, FloorDiv(n, d) + k + 1);
    assert (FloorDiv(n, d) + k) * d == (FloorDiv(n, d)) * d + k * d;
    assert (FloorDiv(n, d) + k + 1) * d == (FloorDiv(n, d)) * d + k * d + d;
  }

  lemma CeilShift(n: nat, k: nat, d: nat)
    requires d > 0
    ensures CeilDiv(n + k * d, d) == CeilDiv(n, d) + k
  {
    FloorShift(n + d - 1, k, d);
  }

  /** A common factor does not change a quotient. */
  lemma FloorScales(n: nat, d: nat, c: nat)
    requires d > 0 && c > 0
    ensures d * c > 0 && FloorDiv(n * c, d * c) == FloorDiv(n, d)
  {
    MulPositive(d, c);
    var q := FloorDiv(n, d);
    FloorBounds(n, d);
    MulLe(q * d, n, c);
    MulSwap(q, d, c);
    MulLe(n + 1, q * d + d, c);
    MulAdd(n, 1, c);
    MulAdd(q * d, d, c);
    FloorIs(n * c, d * c, q);
  }

  /** A positive quantity never rounds up to nothing. */
  lemma CeilPositive(n: nat, d: nat)
    requires d > 0
    ensures CeilDiv(n, d) > 0 <==> n > 0
  {
    CeilAtMost(n, d, 0);
  }
}
