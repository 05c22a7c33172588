/** Products and quotients by a symbolic sector or cluster size. `Times`, `Quo` and `Rem` are `*`, `/` and `%` on
    naturals, defined by repeated addition and subtraction so that proofs about offsets stay linear; `TimesIsProduct`
    and `QuoRemAreDivMod` say that they are the built-in operators. */
module Arith {

  function Times(a: nat, b: nat): nat {
    if a == 0 then 0 else Times(a - 1, b) + b
  }

  function Quo(x: nat, d: nat): nat
    requires d > 0
  {
    if x < d then 0 else Quo(x - d, d) + 1
  }

  function Rem(x: nat, d: nat): nat
    requires d > 0
  {
    if x < d then x else Rem(x - d, d)
  }

  lemma {:induction false} TimesIsProduct(a: nat, b: nat)
    ensures Times(a, b) == a * b
  {
    if a == 0 {
    } else {
      TimesIsProduct(a - 1, b);
    }
  }

  lemma {:induction false} QuoRem(x: nat, d: nat)
    requires d > 0
    ensures x == Times(Quo(x, d), d) + Rem(x, d)
    ensures Rem(x, d) < d
  {
    if x < d {
    } else {
      QuoRem(x - d, d);
    }
  }

  lemma QuoRemAreDivMod(x: nat, d: nat)
    requires d > 0
    ensures Quo(x, d) == x / d && Rem(x, d) == x % d
  {
    QuoRem(x, d);
    TimesIsProduct(Quo(x, d), d);
    EuclideanUnique(Quo(x, d), x / d, Rem(x, d), x % d, d);
  }

  lemma EuclideanUnique(q: nat, p: nat, r: nat, s: nat, d: nat)
    requires r < d && s < d && q * d + r == p * d + s
    ensures q == p && r == s
  {
    if q < p {
      MulGap(q, p, d);
    } else if p < q {
      MulGap(p, q, d);
    }
  }

  lemma MulGap(a: nat, b: nat, d: nat)
    requires a < b
    ensures a * d + d <= b * d
  {
    assert (a + 1) * d == a * d + d;
    if a + 1 == b {
    } else {
      MulGap(a, b - 1, d);
      assert ((b - 1) + 1) * d == (b - 1) * d + d;
    }
  }

  lemma {:induction false} TimesAdd(a: nat, b: nat, d: nat)
    ensures Times(a + b, d) == Times(a, d) + Times(b, d)
  {
    if b == 0 {
    } else {
      TimesAdd(a, b - 1, d);
    }
  }

  lemma TimesMono(a: nat, b: nat, d: nat)
    requires a <= b
    ensures Times(a, d) <= Times(b, d)
    ensures a < b ==> Times(a, d) + d <= Times(b, d)
  {
    TimesAdd(a, b - a, d);
  }

  lemma {:induction false} TimesAssoc(a: nat, b: nat, d: nat)
    ensures Times(Times(a, b), d) == Times(a, Times(b, d))
  {
    if a == 0 {
    } else {
      TimesAssoc(a - 1, b, d);
      TimesAdd(Times(a - 1, b), b, d);
    }
  }

  /** `q * d + r` with `r < d` has quotient `q` and remainder `r`. */
  lemma QuoUnique(q: nat, r: nat, d: nat)
    requires r < d
    ensures Quo(Times(q, d) + r, d) == q
    ensures Rem(Times(q, d) + r, d) == r
    decreases q
  {
    if q == 0 {
    } else {
      QuoUnique(q - 1, r, d);
    }
  }

  /** An offset below `k * d` lies in a block below `k`. */
  lemma QuoBelow(x: nat, k: nat, d: nat)
    requires d > 0
    ensures Quo(x, d) < k <==> x < Times(k, d)
  {
    QuoRem(x, d);
    if Quo(x, d) < k {
      TimesMono(Quo(x, d), k, d);
    } else {
      TimesMono(k, Quo(x, d), d);
    }
  }

  lemma QuoMono(a: nat, b: nat, d: nat)
    requires a <= b && d > 0
    ensures Quo(a, d) <= Quo(b, d)
  {
    if a < d {
    } else {
      QuoMono(a - d, b - d, d);
    }
  }

  // ---------------------------------------------------------------- masks

  predicate PowerOfTwo(n: nat)
    decreases n
  {
    n == 1 || (n > 1 && n % 2 == 0 && PowerOfTwo(n / 2))
  }

  lemma {:induction false} PowerBelow(n: nat, k: nat)
    requires PowerOfTwo(n) && PowerOfTwo(k) && n < 2 * k
    ensures 1 <= n <= k
    decreases n
  {
    if n == 1 {
    } else {
      PowerBelow(n / 2, k / 2);
    }
  }

  /** Bitwise and. */
  function And(a: nat, b: nat): (r: nat)
    ensures r <= a && r <= b
  {
    if a == 0 || b == 0 then 0 else 2 * And(a / 2, b / 2) + (if a % 2 == 1 && b % 2 == 1 then 1 else 0)
  }

  lemma {:induction false} AndSelf(a: nat)
    ensures And(a, a) == a
  {
    if a == 0 {
    } else {
      AndSelf(a / 2);
    }
  }

  lemma {:induction false} TimesDouble(a: nat, b: nat)
    ensures Times(a, 2 * b) == 2 * Times(a, b)
  {
    if a == 0 {
    } else {
      TimesDouble(a - 1, b);
    }
  }

  /** The code's masks by a power of two less one are remainders. */
  lemma {:induction false} MaskIsRem(x: nat, n: nat)
    requires PowerOfTwo(n)
    ensures n > 0 && And(x, n - 1) == Rem(x, n)
    decreases n
  {
    hide Quo, Rem, Times;
    if n == 1 {
      QuoRem(x, 1);
    } else {
      MaskIsRem(x / 2, n / 2);
      HalfRem(x / 2, x % 2, n / 2);
      AndHalves(x, n);
    }
  }

  lemma AndHalves(x: nat, n: nat)
    requires n > 1 && n % 2 == 0
    ensures And(x, n - 1) == 2 * And(x / 2, n / 2 - 1) + x % 2
  {
    assert (n - 1) / 2 == n / 2 - 1 && (n - 1) % 2 == 1;
  }

  /** Quotient and remainder by an even number, one bit less on both sides. */
  lemma HalfRem(y: nat, b: nat, h: nat)
    requires h > 0 && b < 2
    ensures Rem(2 * y + b, 2 * h) == 2 * Rem(y, h) + b
    ensures Quo(2 * y + b, 2 * h) == Quo(y, h)
  {
    hide Quo, Rem, Times;
    QuoRem(y, h);
    TimesDouble(Quo(y, h), h);
    QuoUnique(Quo(y, h), 2 * Rem(y, h) + b, 2 * h);
  }

  /** `n & (n - 1)` is 0 only for powers of two. */
  lemma {:induction false} SingleBit(n: nat)
    requires n > 0
    ensures And(n, n - 1) == 0 ==> PowerOfTwo(n)
  {
    if n == 1 {
    } else if n % 2 == 0 {
      assert (n - 1) / 2 == n / 2 - 1;
      SingleBit(n / 2);
    } else {
      AndSelf(n / 2);
    }
  }

  /** The code's test for a power of two. */
  lemma PowerTest(n: nat)
    requires n > 0
    ensures And(n, n - 1) == 0 <==> PowerOfTwo(n)
  {
    hide And, PowerOfTwo, Rem, Quo;
    SingleBit(n);
    if PowerOfTwo(n) {
      MaskIsRem(n, n);
      QuoUnique(1, 0, n);
      TimesIsProduct(1, n);
    }
  }

  predicate PowerOrZero(n: nat) {
    n == 0 || PowerOfTwo(n)
  }

  /** Powers of two divide to powers of two, or to 0. */
  lemma {:induction false} PowerQuotient(n: nat, d: nat)
    requires PowerOrZero(n) && PowerOfTwo(d)
    ensures d > 0 && PowerOrZero(Quo(n, d))
    decreases d
  {
    hide Quo;
    if d == 1 {
      QuoRemAreDivMod(n, 1);
    } else {
      PowerQuotient(n / 2, d / 2);
      HalfRem(n / 2, n % 2, d / 2);
    }
  }

  /** Distinct offsets differ in quotient or remainder. */
  lemma QuoRemDistinct(x: nat, y: nat, d: nat)
    requires d > 0 && x != y
    ensures Quo(x, d) != Quo(y, d) || Rem(x, d) != Rem(y, d)
  {
    QuoRem(x, d);
    QuoRem(y, d);
  }
}
