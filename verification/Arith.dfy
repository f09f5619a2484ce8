/**
 * Division by a variable as repeated subtraction. Cluster sizes are variables, and
 * these definitions keep the layers above free of nonlinear terms.
 */
module Arith {

  /** q / n */
  function Quot(q: nat, n: nat): (k: nat)
    requires n > 0
    decreases q
  {
    if q < n then 0 else 1 + Quot(q - n, n)
  }

  /** q % n, which is q & (n - 1) when n is a power of two */
  function Rem(q: nat, n: nat): (r: nat)
    requires n > 0
    ensures r < n && r <= q
    decreases q
  {
    if q < n then q else Rem(q - n, n)
  }

  /** k * n */
  function Times(k: nat, n: nat): (p: nat)
    decreases k
  {
    if k == 0 then 0 else Times(k - 1, n) + n
  }

  lemma {:induction false} TimesIsMul(k: nat, n: nat)
    ensures Times(k, n) == k * n
  {
    if k > 0 {
      TimesIsMul(k - 1, n);
      assert k * n == (k - 1) * n + n;
    }
  }

  lemma {:induction false} TimesMonotone(j: nat, k: nat, n: nat)
    requires j <= k
    ensures Times(j, n) <= Times(k, n)
    ensures j < k ==> Times(j, n) + n <= Times(k, n)
  {
    if j < k {
      TimesMonotone(j, k - 1, n);
    }
  }

  lemma TimesNext(k: nat, n: nat)
    ensures Times(0, n) == 0
    ensures Times(k + 1, n) == Times(k, n) + n
  {
  }

  lemma {:induction false} QuotRem(q: nat, n: nat)
    requires n > 0
    ensures q == Times(Quot(q, n), n) + Rem(q, n)
  {
    if q >= n {
      QuotRem(q - n, n);
    }
  }

  lemma {:induction false} QuotRemUnique(q: nat, n: nat, k: nat, r: nat)
    requires n > 0 && r < n && q == Times(k, n) + r
    ensures Quot(q, n) == k && Rem(q, n) == r
  {
    if k > 0 {
      TimesMonotone(1, k, n);
      TimesNext(k - 1, n);
      QuotRemUnique(q - n, n, k - 1, r);
    }
  }

  /** The recursive forms are the machine's division and remainder. */
  lemma {:induction false} QuotRemAreDivMod(q: nat, n: nat)
    requires n > 0
    ensures Quot(q, n) == q / n && Rem(q, n) == q % n
  {
    TimesIsMul(q / n, n);
    QuotRemUnique(q, n, q / n, q % n);
  }

  lemma {:induction false} TimesDistributes(a: nat, b: nat, n: nat)
    ensures Times(a + b, n) == Times(a, n) + Times(b, n)
  {
    if b > 0 {
      TimesDistributes(a, b - 1, n);
      assert a + b - 1 == a + (b - 1);
    }
  }

  lemma {:induction false} TimesAssociates(k: nat, n: nat, m: nat)
    ensures Times(Times(k, n), m) == Times(k, Times(n, m))
  {
    if k > 0 {
      TimesAssociates(k - 1, n, m);
      TimesDistributes(Times(k - 1, n), n, m);
    }
  }

  /** Taking v apart at base m and its quotient at base n is taking it apart at base n * m. */
  lemma QuotRemCompose(v: nat, m: nat, n: nat)
    requires m > 0 && n > 0 && Times(n, m) > 0
    ensures Rem(v, Times(n, m)) == Rem(v, m) + Times(Rem(Quot(v, m), n), m)
    ensures Quot(v, Times(n, m)) == Quot(Quot(v, m), n)
  {
    hide Quot, Rem, Times;
    var q := Quot(v, m);
    var k, t := Quot(q, n), Rem(q, n);
    QuotRem(v, m);
    QuotRem(q, n);
    TimesDistributes(Times(k, n), t, m);
    TimesAssociates(k, n, m);
    TimesMonotone(t, n, m);
    QuotRemUnique(v, Times(n, m), k, Times(t, m) + Rem(v, m));
  }

  lemma Split(q: nat, n: nat)
    requires n > 0
    ensures q == n * Quot(q, n) + Rem(q, n)
  {
    QuotRem(q, n);
    TimesIsMul(Quot(q, n), n);
  }

  /** Split is unique. */
  lemma Join(q: nat, n: nat, k: nat, r: nat)
    requires n > 0 && r < n && q == n * k + r
    ensures Quot(q, n) == k && Rem(q, n) == r
  {
    TimesIsMul(k, n);
    QuotRemUnique(q, n, k, r);
  }

  lemma QuotBelow(q: nat, n: nat, k: nat)
    requires n > 0 && q < n * k
    ensures Quot(q, n) < k
  {
    QuotRem(q, n);
    TimesIsMul(k, n);
    if Quot(q, n) >= k {
      TimesMonotone(k, Quot(q, n), n);
    }
  }

  /** One step of q: either inside the same group of n, or the first of the next. */
  lemma QuotRemStep(q: nat, n: nat)
    requires n > 0
    ensures Rem(q, n) + 1 < n ==> Quot(q + 1, n) == Quot(q, n) && Rem(q + 1, n) == Rem(q, n) + 1
    ensures Rem(q, n) + 1 == n ==> Quot(q + 1, n) == Quot(q, n) + 1 && Rem(q + 1, n) == 0
  {
    QuotRem(q, n);
    if Rem(q, n) + 1 < n {
      QuotRemUnique(q + 1, n, Quot(q, n), Rem(q, n) + 1);
    } else {
      QuotRemUnique(q + 1, n, Quot(q, n) + 1, 0);
    }
  }

  predicate IsPowerOfTwo(x: nat) {
    x == 1 || (x > 1 && x % 2 == 0 && IsPowerOfTwo(x / 2))
  }

  /** A cluster size passes the source's test x && !(x & (x - 1)) on a BYTE when it is a power of two. */
  lemma PowersOfTwo(x: bv8)
    ensures x != 0 && x & (x - 1) == 0 <==>
            (x == 1 || x == 2 || x == 4 || x == 8 || x == 16 || x == 32 || x == 64 || x == 128)
  {
  }

  /** For such a size, masking with the size less one takes the remainder. */
  lemma MaskIsRemainder(x: bv32)
    ensures x & 1 == x % 2 && x & 3 == x % 4 && x & 7 == x % 8 && x & 15 == x % 16
    ensures x & 31 == x % 32 && x & 63 == x % 64 && x & 127 == x % 128
  {
  }

  lemma PowersOfTwoBelow256(x: nat)
    requires x < 256
    ensures IsPowerOfTwo(x) <==>
            (x == 1 || x == 2 || x == 4 || x == 8 || x == 16 || x == 32 || x == 64 || x == 128)
  {
    if IsPowerOfTwo(x) && x > 1 {
      PowersOfTwoBelow256(x / 2);
    }
    assert IsPowerOfTwo(1) && IsPowerOfTwo(2);
    assert IsPowerOfTwo(4);
    assert IsPowerOfTwo(8);
    assert IsPowerOfTwo(16);
    assert IsPowerOfTwo(32);
    assert IsPowerOfTwo(64);
    assert IsPowerOfTwo(128);
  }
}
