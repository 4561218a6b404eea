/** Powers and congruences, as far as the key agreement needs them. */
module ModArith {

  function Pow(b: int, e: nat): int {
    if e == 0 then 1 else b * Pow(b, e - 1)
  }

  /** `BN_mod_exp`: also of a negative base, where the result is the one in `0..m`. */
  function ModExp(b: int, e: nat, m: nat): (r: nat)
    requires m > 0
    ensures r < m
  {
    Pow(b, e) % m
  }

  lemma {:induction false} PowSum(b: int, d: nat, e: nat)
    ensures Pow(b, d + e) == Pow(b, d) * Pow(b, e)
  {
    if d > 0 {
      PowSum(b, d - 1, e);
      assert b * (Pow(b, d - 1) * Pow(b, e)) == b * Pow(b, d - 1) * Pow(b, e);
    }
  }

  /** With `PowSum`, this leaves no other function. */
  lemma PowOne(b: int)
    ensures Pow(b, 0) == 1 && Pow(b, 1) == b
  {
  }

  lemma {:induction false} PowOfPow(b: int, d: nat, e: nat)
    ensures Pow(Pow(b, d), e) == Pow(b, d * e)
  {
    if e > 0 {
      PowOfPow(b, d, e - 1);
      PowSum(b, d, d * (e - 1));
      assert d + d * (e - 1) == d * e;
    } else {
      assert d * e == 0;
    }
  }

  ghost predicate Congruent(a: int, b: int, m: nat)
    requires m > 0
  {
    a % m == b % m
  }

  lemma TimesAtLeast(t: int, m: int)
    requires m >= 0
    ensures (t >= 1 ==> t * m >= m) && (t <= -1 ==> t * m <= -m)
  {
  }

  /** Congruence as a multiple, in which sums and products are easy. */
  lemma CongruentByMultiple(a: int, b: int, m: nat, q: int)
    requires m > 0 && a == b + q * m
    ensures Congruent(a, b, m)
  {
    var r := a % m - b % m;
    var t := a / m - b / m - q;
    assert r + t * m == 0;
    TimesAtLeast(t, m);
  }

  lemma MultipleOfCongruent(a: int, b: int, m: nat) returns (q: int)
    requires m > 0 && Congruent(a, b, m)
    ensures a == b + q * m
  {
    q := a / m - b / m;
  }

  lemma ReducedIsCongruent(a: int, m: nat)
    requires m > 0
    ensures Congruent(a % m, a, m)
  {
  }

  lemma SumOfCongruent(a: int, a': int, b: int, b': int, m: nat)
    requires m > 0 && Congruent(a, a', m) && Congruent(b, b', m)
    ensures Congruent(a + b, a' + b', m) && Congruent(a - b, a' - b', m)
  {
    var p := MultipleOfCongruent(a, a', m);
    var q := MultipleOfCongruent(b, b', m);
    assert p * m + q * m == (p + q) * m && p * m - q * m == (p - q) * m;
    CongruentByMultiple(a + b, a' + b', m, p + q);
    CongruentByMultiple(a - b, a' - b', m, p - q);
  }

  lemma ProductOfCongruent(a: int, a': int, b: int, b': int, m: nat)
    requires m > 0 && Congruent(a, a', m) && Congruent(b, b', m)
    ensures Congruent(a * b, a' * b', m)
  {
    FactorOfCongruent(a, a', b, m);
    FactorOfCongruent(b, b', a', m);
  }

  lemma FactorOfCongruent(a: int, a': int, c: int, m: nat)
    requires m > 0 && Congruent(a, a', m)
    ensures Congruent(a * c, a' * c, m)
  {
    var q := MultipleOfCongruent(a, a', m);
    hide Congruent;
    Distribute(a', q, m, c);
    CongruentByMultiple(a * c, a' * c, m, q * c);
  }

  lemma Distribute(x: int, q: int, m: int, c: int)
    ensures (x + q * m) * c == x * c + q * c * m
  {
  }

  lemma {:induction false} PowerOfCongruent(a: int, b: int, e: nat, m: nat)
    requires m > 0 && Congruent(a, b, m)
    ensures Congruent(Pow(a, e), Pow(b, e), m)
  {
    if e > 0 {
      PowerOfCongruent(a, b, e - 1, m);
      ProductOfCongruent(a, b, Pow(a, e - 1), Pow(b, e - 1), m);
    }
  }

  lemma ModExpIsCongruent(b: int, e: nat, m: nat)
    requires m > 0
    ensures Congruent(ModExp(b, e, m), Pow(b, e), m)
  {
    ReducedIsCongruent(Pow(b, e), m);
  }
}
