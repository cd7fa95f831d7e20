/** Exponents and congruences, as much as the logon arithmetic needs. */
module Modular {
  import opened Bytes

  ghost predicate Congruent(a: int, b: int, n: int) {
    exists k: int :: a - b == Multiple(k, n)
  }

  function Multiple(k: int, n: int): int {
    k * n
  }

  function PowMod(b: nat, e: nat, n: nat): nat
    requires n > 0
  {
    Pow(b, e) % n
  }

  lemma CongruentBy(a: int, b: int, k: int, n: int)
    requires a - b == k * n
    ensures Congruent(a, b, n)
  {
    assert a - b == Multiple(k, n);
  }

  lemma Reduced(a: nat, n: nat)
    requires n > 0
    ensures Congruent(a % n, a, n)
  {
    CongruentBy(a % n, a, -(a / n), n);
  }

  lemma Trans(a: int, b: int, c: int, n: int)
    requires Congruent(a, b, n) && Congruent(b, c, n)
    ensures Congruent(a, c, n)
  {
    var j :| a - b == Multiple(j, n);
    var k :| b - c == Multiple(k, n);
    assert (j + k) * n == j * n + k * n;
    CongruentBy(a, c, j + k, n);
  }

  lemma Product(a: int, b: int, c: int, d: int, n: int)
    requires Congruent(a, b, n) && Congruent(c, d, n)
    ensures Congruent(a * c, b * d, n)
  {
    var j :| a - b == Multiple(j, n);
    var k :| c - d == Multiple(k, n);
    calc {
      a * c - b * d;
      (a - b) * c + b * (c - d);
      (j * n) * c + b * (k * n);
      { assert (j * n) * c == (j * c) * n; assert b * (k * n) == (b * k) * n; }
      (j * c) * n + (b * k) * n;
      (j * c + b * k) * n;
    }
    CongruentBy(a * c, b * d, j * c + b * k, n);
  }

  /** Congruent numbers have the same remainder. */
  lemma SameRemainder(a: nat, b: nat, n: nat)
    requires n > 0 && Congruent(a, b, n)
    ensures a % n == b % n
  {
    var k :| a - b == Multiple(k, n);
    var x, y := a / n, b / n;
    assert a == x * n + a % n && b == y * n + b % n;
    assert (k - x + y) * n == k * n - x * n + y * n;
    SmallMultiple(k - x + y, n, a % n - b % n);
  }

  lemma SmallMultiple(m: int, n: int, r: int)
    requires r == m * n && -n < r < n
    ensures r == 0
  {
    assert (-m - 1) * n == -(m * n) - n;
    if m >= 1 {
      AtLeastOnce(m - 1, n);
    } else if m <= -1 {
      AtLeastOnce(-m - 1, n);
    }
  }

  lemma AtLeastOnce(m: nat, n: nat)
    ensures m * n >= 0
    ensures (m + 1) * n == m * n + n >= n
  {
  }

  lemma {:induction false} PowCongruent(a: nat, b: nat, e: nat, n: nat)
    requires Congruent(a, b, n)
    ensures Congruent(Pow(a, e), Pow(b, e), n)
  {
    if e == 0 {
      CongruentBy(1, 1, 0, n);
    } else {
      PowCongruent(a, b, e - 1, n);
      Product(a, b, Pow(a, e - 1), Pow(b, e - 1), n);
    }
  }

  lemma Associate(a: int, b: int, c: int)
    ensures a * (b * c) == (a * b) * c
  {
  }

  lemma {:induction false} PowSum(b: nat, e: nat, f: nat)
    ensures Pow(b, e + f) == Pow(b, e) * Pow(b, f)
  {
    if e > 0 {
      PowSum(b, e - 1, f);
      Associate(b, Pow(b, e - 1), Pow(b, f));
    }
  }

  lemma {:induction false} PowOfPow(b: nat, e: nat, f: nat)
    ensures Pow(Pow(b, e), f) == Pow(b, e * f)
  {
    if f == 0 {
      assert e * f == 0;
    } else {
      PowOfPow(b, e, f - 1);
      PowSum(b, e, e * (f - 1));
      assert e * f == e + e * (f - 1);
    }
  }

  lemma {:induction false} PowOfProduct(a: nat, b: nat, e: nat)
    ensures Pow(a * b, e) == Pow(a, e) * Pow(b, e)
  {
    if e > 0 {
      PowOfProduct(a, b, e - 1);
      Shuffle(a, b, Pow(a, e - 1), Pow(b, e - 1));
    }
  }

  lemma Shuffle(a: int, b: int, x: int, y: int)
    ensures (a * b) * (x * y) == (a * x) * (b * y)
  {
    assert (a * b) * (x * y) == a * (b * (x * y));
    assert b * (x * y) == x * (b * y);
    assert a * (x * (b * y)) == (a * x) * (b * y);
  }

  lemma {:induction false} PowOfOne(e: nat)
    ensures Pow(1, e) == 1
  {
    if e > 0 { PowOfOne(e - 1); }
  }

  /** A power of an invertible number is never a multiple of the modulus. */
  lemma InvertiblePower(g: nat, inverse: nat, e: nat, n: nat)
    requires n > 1 && Congruent(g * inverse, 1, n)
    ensures PowMod(g, e, n) != 0
  {
    var p, q := Pow(g, e), Pow(inverse, e);
    PowOfProduct(g, inverse, e);
    PowCongruent(g * inverse, 1, e, n);
    PowOfOne(e);
    SameRemainder(p * q, 1, n);
    if p % n == 0 {
      Associate(p / n, n, q);
      assert p * q == (p / n * q) * n by { Shuffle(p / n, n, q, 1); }
      CongruentBy(p * q, 0, p / n * q, n);
      SameRemainder(p * q, 0, n);
    }
  }

  /** The client's route: `(g^b)^(a + u*x)` from a base that is `g^b` only up to the modulus. */
  lemma ClientRoute(g: nat, n: nat, b: nat, e: nat, base: nat)
    requires n > 0 && Congruent(base, Pow(g, b), n)
    ensures PowMod(base, e, n) == PowMod(g, b * e, n)
  {
    PowCongruent(base, Pow(g, b), e, n);
    PowOfPow(g, b, e);
    SameRemainder(Pow(base, e), Pow(g, b * e), n);
  }

  /** What the client takes out of `B` again: `(n + (v + p) % n - v) % n` is `p`, up to the modulus. */
  lemma TakeOut(v: nat, p: nat, n: nat)
    requires n > 0 && v < n
    ensures Congruent((n + (v + p) % n - v) % n, p, n)
  {
    var s := (v + p) % n;
    Reduced(n + s - v, n);
    var q := (v + p) / n;
    assert v + p == q * n + s;
    assert (1 - q) * n == n - q * n;
    CongruentBy(n + s - v, p, 1 - q, n);
    Trans((n + s - v) % n, n + s - v, p, n);
  }

  lemma ClientBase(g: nat, n: nat, b: nat, v: nat)
    requires n > 0 && v < n
    ensures Congruent((n + (v + PowMod(g, b, n)) % n - v) % n, Pow(g, b), n)
  {
    var p := PowMod(g, b, n);
    TakeOut(v, p, n);
    Reduced(Pow(g, b), n);
    Trans((n + (v + p) % n - v) % n, p, Pow(g, b), n);
  }

  /** The server's base is `g^(a + x*u)`, up to the modulus. */
  lemma ServerBase(g: nat, n: nat, x: nat, a: nat, u: nat)
    requires n > 0
    ensures Congruent(PowMod(g, a, n) * PowMod(PowMod(g, x, n), u, n) % n, Pow(g, a + x * u), n)
  {
    var A, v := PowMod(g, a, n), PowMod(g, x, n);
    var w := PowMod(v, u, n);
    Reduced(Pow(g, x), n);
    PowCongruent(v, Pow(g, x), u, n);
    Reduced(Pow(v, u), n);
    Trans(w, Pow(v, u), Pow(Pow(g, x), u), n);
    PowOfPow(g, x, u);
    Reduced(Pow(g, a), n);
    Product(A, Pow(g, a), w, Pow(g, x * u), n);
    PowSum(g, a, x * u);
    ReducedTrans(A * w, Pow(g, a + x * u), n);
  }

  lemma ReducedTrans(p: nat, q: nat, n: nat)
    requires n > 0 && Congruent(p, q, n)
    ensures Congruent(p % n, q, n)
  {
    Reduced(p, n);
    Trans(p % n, p, q, n);
  }

  /** The client's secret from the server's `B`, its password exponent `x`, its own `a` and the scrambler `u`. */
  function ClientValue(g: nat, n: nat, x: nat, a: nat, u: nat, B: nat): nat
    requires n > 0
  {
    var base: nat := (n + B % n - PowMod(g, x, n)) % n;
    PowMod(base, a + u * x, n)
  }

  /** The server's secret from the client's `A`, the stored verifier `v`, its own `b` and the scrambler `u`. */
  function ServerValue(n: nat, v: nat, b: nat, u: nat, A: nat): nat
    requires n > 0
  {
    PowMod(A % n * PowMod(v, u, n) % n, b, n)
  }

  /** The server's `B`: the verifier plus a power of the generator. */
  function Challenge(g: nat, n: nat, v: nat, b: nat): nat
    requires n > 0
  {
    (v + PowMod(g, b, n)) % n
  }

  /** The two routes to the shared secret meet, for every generator, modulus and exponents. */
  lemma SharedSecret(g: nat, n: nat, x: nat, a: nat, b: nat, u: nat)
    requires n > 0
    ensures
      var v := PowMod(g, x, n);
      ClientValue(g, n, x, a, u, Challenge(g, n, v, b)) == ServerValue(n, v, b, u, PowMod(g, a, n))
  {
    var v, A := PowMod(g, x, n), PowMod(g, a, n);
    var B := Challenge(g, n, v, b);
    assert A % n == A && B % n == B by {
      RemainderOfRemainder(Pow(g, a), n);
      RemainderOfRemainder(v + PowMod(g, b, n), n);
    }
    ClientBase(g, n, b, v);
    ClientRoute(g, n, b, a + u * x, (n + B - v) % n);
    ServerBase(g, n, x, a, u);
    ClientRoute(g, n, a + x * u, b, A * PowMod(v, u, n) % n);
    SameExponent(a, b, u, x);
  }

  lemma RemainderOfRemainder(p: nat, n: nat)
    requires n > 0
    ensures p % n % n == p % n
  {
  }

  lemma SameExponent(a: nat, b: nat, u: nat, x: nat)
    ensures b * (a + u * x) == (a + x * u) * b
  {
    assert u * x == x * u;
  }
}
