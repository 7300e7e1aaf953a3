/** Square-and-multiply modular exponentiation, fuzz/bn_mod_exp.cc.  Big numbers are integers:
  * `BN_nnmod` is the remainder between 0 and |m|, `BN_rshift1` and `BN_is_odd` act on the magnitude.
  */
module ModExp {
  import opened Basics

  function Pow(b: int, e: nat): int {
    if e == 0 then 1 else b * Pow(b, e - 1)
  }

  function Abs(x: int): nat {
    if x < 0 then -x else x
  }

  function Times(k: int, m: int): int {
    k * m
  }

  /** x and y differ by a multiple of m. */
  ghost predicate Congruent(x: int, y: int, m: int) {
    exists k :: x - y == Times(k, m)
  }

  lemma CongruentRemainder(x: int, m: int)
    requires m != 0
    ensures Congruent(x % m, x, m) && 0 <= x % m < Abs(m)
  {
    assert x == m * (x / m) + x % m;
    assert x % m - x == Times(-(x / m), m) by {
      assert Times(-(x / m), m) == -(x / m) * m == -(m * (x / m));
    }
  }

  lemma CongruentTimes(x: int, y: int, z: int, m: int)
    requires Congruent(x, y, m)
    ensures Congruent(x * z, y * z, m)
  {
    var k :| x - y == Times(k, m);
    assert x * z - y * z == Times(k * z, m) by {
      calc {
        x * z - y * z;
        (x - y) * z;
        k * m * z;
        k * z * m;
      }
    }
  }

  lemma CongruentTransitive(x: int, y: int, z: int, m: int)
    requires Congruent(x, y, m) && Congruent(y, z, m)
    ensures Congruent(x, z, m)
  {
    var k :| x - y == Times(k, m);
    var l :| y - z == Times(l, m);
    assert x - z == Times(k + l, m);
  }

  lemma CongruentProduct(x: int, y: int, z: int, w: int, m: int)
    requires Congruent(x, y, m) && Congruent(z, w, m)
    ensures Congruent(x * z, y * w, m)
  {
    CongruentTimes(x, y, z, m);
    CongruentTimes(z, w, y, m);
    assert z * y == y * z && w * y == y * w;
    CongruentTransitive(x * z, y * z, y * w, m);
  }

  lemma {:induction false} CongruentPow(x: int, y: int, e: nat, m: int)
    requires Congruent(x, y, m)
    ensures Congruent(Pow(x, e), Pow(y, e), m)
  {
    if e == 0 {
      assert 1 - 1 == Times(0, m);
    } else {
      CongruentPow(x, y, e - 1, m);
      CongruentProduct(x, y, Pow(x, e - 1), Pow(y, e - 1), m);
    }
  }

  lemma {:induction false} PowSquare(b: int, n: nat)
    ensures Pow(b * b, n) == Pow(b, 2 * n)
  {
    if n > 0 {
      PowSquare(b, n - 1);
      assert Pow(b, 2 * n) == b * (b * Pow(b, 2 * n - 2));
      assert b * (b * Pow(b, 2 * n - 2)) == b * b * Pow(b, 2 * n - 2);
    }
  }

  /** The exponent is halved, the base squared, and an odd factor moved over to r. */
  lemma HalveExponent(r: int, base: int, exp: nat)
    requires exp > 0
    ensures r * Pow(base, exp) == (if exp % 2 == 1 then r * base else r) * Pow(base * base, exp / 2)
  {
    var half := exp / 2;
    PowSquare(base, half);
    if exp % 2 == 1 {
      assert exp == 2 * half + 1;
      assert r * (base * Pow(base, 2 * half)) == r * base * Pow(base, 2 * half);
    } else {
      assert exp == 2 * half;
    }
  }

  /** One turn of the loop keeps r * base^exp, modulo m. */
  lemma TurnKeeps(r: int, base: int, exp: nat, m: int)
    requires exp > 0 && m != 0
    ensures var r' := if exp % 2 == 1 then (r * base) % m else r;
            Congruent(r' * Pow((base * base) % m, exp / 2), r * Pow(base, exp), m)
  {
    HalveExponent(r, base, exp);
    var r' := if exp % 2 == 1 then (r * base) % m else r;
    var x := if exp % 2 == 1 then r * base else r;
    CongruentRemainder(r * base, m);
    CongruentRemainder(base * base, m);
    CongruentPow((base * base) % m, base * base, exp / 2, m);
    assert r - r == Times(0, m);
    CongruentProduct(r', x, Pow((base * base) % m, exp / 2), Pow(base * base, exp / 2), m);
  }

  lemma LargeMultiple(k: int, m: int)
    requires k != 0
    ensures Abs(Times(k, m)) >= Abs(m)
  {
    assert k > 0 && m >= 0 ==> k * m >= m;
    assert k > 0 && m < 0 ==> k * m <= m;
    assert k < 0 && m >= 0 ==> k * m <= -m;
    assert k < 0 && m < 0 ==> k * m >= -m;
  }

  lemma RemainderUnique(r: int, x: int, m: int)
    requires m != 0 && Congruent(r, x, m) && 0 <= r < Abs(m)
    ensures r == x % m
  {
    CongruentRemainder(x, m);
    var k :| r - x == Times(k, m);
    var l :| x % m - x == Times(l, m);
    assert r - x % m == Times(k - l, m);
    if k != l { LargeMultiple(k - l, m); }
  }

  /** mod_exp fails exactly for the modulus 0; it returns the remainder of the power of |p|,
    * between 0 and |m|, in every other case but one: m == -1 and p == 0. */
  method ModExp(a: int, p: int, m: int) returns (result: Option<int>)
    ensures result == None <==> m == 0
    ensures m != 0 ==> (result == Some(Pow(a, Abs(p)) % m) <==> !(m == -1 && p == 0))
    ensures m != 0 && !(m == -1 && p == 0) ==> 0 <= result.value < Abs(m)
    ensures m == -1 && p == 0 ==> result == Some(1) && Pow(a, 0) % m == 0
  {
    hide Congruent;
    if m != 0 { CongruentRemainder(Pow(a, Abs(p)), m); }
    if m == 1 {
      return Some(0);
    }
    var exp := Abs(p);
    if m == 0 {
      return None;
    }
    var r, base := 1, a % m;
    Start(a, exp, m);
    while exp != 0
      invariant Congruent(r * Pow(base, exp), Pow(a, Abs(p)), m)
      invariant 0 <= r < Abs(m) || (r == 1 && (exp > 0 || p == 0))
      invariant p == 0 ==> r == 1 && exp == 0
      decreases exp
    {
      TurnKeeps(r, base, exp, m);
      ghost var before := r * Pow(base, exp);
      if exp % 2 == 1 {
        r := (r * base) % m;
      }
      exp := exp / 2;
      base := (base * base) % m;
      CongruentTransitive(r * Pow(base, exp), before, Pow(a, Abs(p)), m);
    }
    assert r * Pow(base, 0) == r;
    if 0 <= r < Abs(m) {
      RemainderUnique(r, Pow(a, Abs(p)), m);
    }
    return Some(r);
  }

  lemma Start(a: int, e: nat, m: int)
    requires m != 0
    ensures Congruent(1 * Pow(a % m, e), Pow(a, e), m)
  {
    CongruentRemainder(a, m);
    CongruentPow(a % m, a, e, m);
  }
}
