/** Non-linear facts shared by the frame, block and fragment arithmetic. */
module Arith {

  lemma MulMono(a: nat, b: nat, d: nat)
    requires a <= b
    ensures a * d <= b * d
    ensures a < b ==> a * d + d <= b * d
  {
    assert (b - a) * d == b * d - a * d;
    if a < b { MulAtLeast(b - a, d); }
  }

  lemma MulAtLeast(a: nat, d: nat)
    requires a >= 1
    ensures a * d >= d
  {
    assert a * d == (a - 1) * d + d;
  }

  /** Quotient and remainder are unique. */
  lemma DivUnique(n: nat, d: nat, q: nat, r: nat)
    requires d > 0 && n == q * d + r && r < d
    ensures n / d == q && n % d == r
  {
    var q', r' := n / d, n % d;
    assert n == q' * d + r';
    if q < q' { MulMono(q, q', d); } else if q' < q { MulMono(q', q, d); }
  }

  lemma MulAdd(a: int, b: int, c: int)
    ensures (a + b) * c == a * c + b * c
  {
  }

  lemma MulAssoc(a: int, b: int, c: int)
    ensures a * (b * c) == (a * b) * c
  {
  }

  /** Quotient and remainder by repeated subtraction, for use where `/` would burden a proof. */
  function Quot(n: nat, d: nat): nat
    requires d >= 1
  {
    if n < d then 0 else 1 + Quot(n - d, d)
  }

  function Rem(n: nat, d: nat): nat
    requires d >= 1
  {
    if n < d then n else Rem(n - d, d)
  }

  lemma {:induction false} QuotRem(n: nat, d: nat)
    requires d >= 1
    ensures n == Quot(n, d) * d + Rem(n, d) && Rem(n, d) < d
  {
    if n >= d {
      QuotRem(n - d, d);
      MulAdd(Quot(n - d, d), 1, d);
    }
  }

  lemma QuotIsDiv(n: nat, d: nat)
    requires d >= 1
    ensures n / d == Quot(n, d) && n % d == Rem(n, d)
  {
    QuotRem(n, d);
    DivUnique(n, d, Quot(n, d), Rem(n, d));
  }

  lemma QuotUnique(n: nat, d: nat, q: nat, r: nat)
    requires n == q * d + r && r < d
    ensures Quot(n, d) == q && Rem(n, d) == r
  {
    DivUnique(n, d, q, r);
    QuotIsDiv(n, d);
  }

  /** A product by repeated addition, for use where `*` would burden a proof. */
  function Times(n: nat, d: nat): nat { if n == 0 then 0 else Times(n - 1, d) + d }

  lemma {:induction false} TimesIsMul(n: nat, d: nat)
    ensures Times(n, d) == n * d
  {
    if n > 0 {
      TimesIsMul(n - 1, d);
      MulAdd(n - 1, 1, d);
    }
  }

  lemma TimesMono(a: nat, b: nat, d: nat)
    requires a <= b
    ensures Times(a, d) <= Times(b, d)
    ensures a < b ==> Times(a, d) + d <= Times(b, d)
  {
    TimesIsMul(a, d);
    TimesIsMul(b, d);
    MulMono(a, b, d);
  }

  lemma TimesAdd(a: nat, b: nat, d: nat)
    ensures Times(a + b, d) == Times(a, d) + Times(b, d)
  {
    TimesIsMul(a, d);
    TimesIsMul(b, d);
    TimesIsMul(a + b, d);
    MulAdd(a, b, d);
  }

  /** Both results of a division. */
  method Divide(n: nat, d: nat) returns (q: nat, r: nat)
    requires d >= 1
    ensures q == Quot(n, d) && r == Rem(n, d) && n == q * d + r && r < d
  {
    q, r := n / d, n % d;
    QuotIsDiv(n, d);
    QuotRem(n, d);
  }
}
