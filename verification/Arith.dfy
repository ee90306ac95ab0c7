/** Modular arithmetic over the integers: congruence, inverses modulo a prime, powers of two. */
module Arith {

  /** `a` and `b` differ by a multiple of `q`. */
  predicate Cong(a: int, b: int, q: int)
    requires q > 0
  {
    (a - b) % q == 0
  }

  predicate IsPrime(n: int) {
    n > 1 && forall d :: 1 < d < n ==> n % d != 0
  }

  lemma DivisionUnique(a: int, q: int, k: int, r: int)
    requires q > 0 && 0 <= r < q && a == q * k + r
    ensures a % q == r && a / q == k
  {
    var d := k - a / q;
    assert q * d == a % q - r by {
      assert a == q * (a / q) + a % q;
      assert q * d == q * k - q * (a / q);
    }
    assert d >= 1 ==> q * d >= q;
    assert d <= -1 ==> q * d <= -q;
  }

  lemma CongWitness(a: int, b: int, q: int, k: int)
    requires q > 0 && a - b == q * k
    ensures Cong(a, b, q)
  {
    DivisionUnique(a - b, q, k, 0);
  }

  lemma CongIffSameRest(a: int, b: int, q: int)
    requires q > 0
    ensures Cong(a, b, q) <==> a % q == b % q
  {
    var ka, kb := a / q, b / q;
    assert a == q * ka + a % q && b == q * kb + b % q;
    if Cong(a, b, q) {
      var k := (a - b) / q;
      assert a - b == q * k;
      assert a == q * (kb + k) + b % q by {
        assert q * (kb + k) == q * kb + q * k;
      }
      DivisionUnique(a, q, kb + k, b % q);
    }
    if a % q == b % q {
      assert a - b == q * (ka - kb) by {
        assert q * (ka - kb) == q * ka - q * kb;
      }
      CongWitness(a, b, q, ka - kb);
    }
  }

  lemma CongRest(a: int, q: int)
    requires q > 0
    ensures Cong(a, a % q, q) && Cong(a % q, a, q)
  {
    assert a == q * (a / q) + a % q;
    CongWitness(a, a % q, q, a / q);
    CongWitness(a % q, a, q, -(a / q));
  }

  lemma CongAdd(a: int, b: int, c: int, d: int, q: int)
    requires q > 0 && Cong(a, b, q) && Cong(c, d, q)
    ensures Cong(a + c, b + d, q) && Cong(a - c, b - d, q)
  {
    var k, l := (a - b) / q, (c - d) / q;
    assert a - b == q * k && c - d == q * l;
    assert q * (k + l) == q * k + q * l && q * (k - l) == q * k - q * l;
    CongWitness(a + c, b + d, q, k + l);
    CongWitness(a - c, b - d, q, k - l);
  }

  lemma CongMul(a: int, b: int, c: int, q: int)
    requires q > 0 && Cong(a, b, q)
    ensures Cong(a * c, b * c, q) && Cong(c * a, c * b, q)
  {
    var k := (a - b) / q;
    assert a - b == q * k;
    assert a * c - b * c == (a - b) * c == q * (k * c);
    CongWitness(a * c, b * c, q, k * c);
    assert c * a == a * c && c * b == b * c;
  }

  lemma NegSquare(q: int, y: int)
    requires q > 0
    ensures (q - y) * (q - y) % q == y * y % q
  {
    assert (q - y) * (q - y) == q * q - 2 * (q * y) + y * y;
    assert q * (q - 2 * y) == q * q - 2 * (q * y);
    CongWitness((q - y) * (q - y), y * y, q, q - 2 * y);
    CongIffSameRest((q - y) * (q - y), y * y, q);
  }

  lemma CongTrans(a: int, b: int, c: int, q: int)
    requires q > 0 && Cong(a, b, q) && Cong(b, c, q)
    ensures Cong(a, c, q)
  {
    CongIffSameRest(a, b, q);
    CongIffSameRest(b, c, q);
    CongIffSameRest(a, c, q);
  }

  lemma CongSmall(a: int, b: int, q: int)
    requires q > 0 && 0 <= a < q && 0 <= b < q && Cong(a, b, q)
    ensures a == b
  {
    CongIffSameRest(a, b, q);
    DivisionUnique(a, q, 0, a);
    DivisionUnique(b, q, 0, b);
  }

  // ----- Inverses modulo a prime ----------------------------------------------------------

  /** Bezout's identity: a common divisor of `a` and `b` as a combination of the two. */
  lemma {:induction false} Bezout(a: nat, b: nat) returns (g: int, u: int, v: int)
    requires a > 0 || b > 0
    ensures g > 0 && u * a + v * b == g
    ensures a % g == 0 && b % g == 0
    decreases b
  {
    if b == 0 {
      g, u, v := a, 1, 0;
      DivisionUnique(a, g, 1, 0);
      DivisionUnique(0, g, 0, 0);
    } else {
      var k, r := a / b, a % b;
      var u', v';
      g, u', v' := Bezout(b, r);
      u, v := v', u' - v' * k;
      assert a == b * k + r;
      calc {
        u * a + v * b;
        v' * (b * k + r) + (u' - v' * k) * b;
        { assert v' * (b * k + r) == v' * (b * k) + v' * r; }
        { assert (u' - v' * k) * b == u' * b - v' * k * b; }
        { assert v' * (b * k) == v' * k * b; }
        u' * b + v' * r;
      }
      var m, n := b / g, r / g;
      assert b == g * m && r == g * n;
      assert a == g * (m * k + n) by {
        assert b * k == g * (m * k);
        assert g * (m * k + n) == g * (m * k) + g * n;
      }
      DivisionUnique(a, g, m * k + n, 0);
    }
  }

  lemma DivisorAtMost(a: int, g: int)
    requires a > 0 && g > 0 && a % g == 0
    ensures g <= a
  {
    assert a == g * (a / g);
  }

  /** A number that is not a multiple of the prime `q` has an inverse modulo `q`. */
  lemma InverseExists(a: int, q: int) returns (u: int)
    requires IsPrime(q) && a % q != 0
    ensures 0 <= u < q && Cong(u * a, 1, q)
  {
    var r := a % q;
    var g, w, v := Bezout(r, q);
    DivisorAtMost(r, g);
    assert g == 1;
    assert w * r - 1 == q * (-v) by {
      assert v * q == q * v;
    }
    CongWitness(w * r, 1, q, -v);
    u := w % q;
    CongRest(w, q);
    CongMul(u, w, a, q);
    CongRest(a, q);
    CongMul(a, r, w, q);
    CongTrans(u * a, w * a, w * r, q);
    CongTrans(u * a, w * r, 1, q);
  }

  /** Euclid's lemma. */
  lemma PrimeDividesProduct(a: int, b: int, q: int)
    requires IsPrime(q) && Cong(a * b, 0, q)
    ensures Cong(a, 0, q) || Cong(b, 0, q)
  {
    if a % q != 0 {
      var u := InverseExists(a, q);
      CongMul(u * a, 1, b, q);
      CongMul(a * b, 0, u, q);
      assert u * (a * b) == u * a * b;
      CongIffSameRest(u * a * b, 1 * b, q);
      CongIffSameRest(u * (a * b), u * 0, q);
      CongIffSameRest(b, 0, q);
    }
  }

  predicate IsRoot(y: nat, a: int, q: int)
    requires q > 0
  {
    y < q && y * y % q == a % q
  }

  predicate RootOfParity(y: nat, bit: nat, a: int, q: int)
    requires q > 0
  {
    IsRoot(y, a, q) && y % 2 == bit
  }

  lemma OppositeRoot(y: nat, a: int, q: int)
    requires q > 0 && IsRoot(y, a, q) && y > 0
    ensures y < q && IsRoot(q - y, a, q)
  {
    NegSquare(q, y);
  }

  lemma RootsOfBothParities(y: nat, a: int, q: int)
    requires q > 0 && q % 2 == 1 && IsRoot(y, a, q)
    ensures y < q && RootOfParity(y, y % 2, a, q)
    ensures y > 0 ==> RootOfParity(q - y, 1 - y % 2, a, q)
  {
    assert y < q;
    hide IsRoot;
    if y > 0 {
      OppositeRoot(y, a, q);
      OppositeParity(y, q);
    }
  }

  lemma OppositeParity(y: nat, q: int)
    requires y <= q && q % 2 == 1
    ensures (q - y) % 2 == 1 - y % 2
  {
  }

  /** Modulo a prime two square roots of the same number are equal or opposite. */
  lemma RootsAreOpposite(y: nat, z: nat, a: int, q: int)
    requires IsPrime(q) && IsRoot(y, a, q) && IsRoot(z, a, q)
    ensures y < q && z < q
    ensures y == z || y + z == q
  {
    CongIffSameRest(y * y, z * z, q);
    assert (y - z) * (y + z) == y * y - z * z;
    PrimeDividesProduct(y - z, y + z, q);
    if Cong(y - z, 0, q) {
      CongSmall(y, z, q);
    } else if y + z >= q {
      DivisionUnique(y + z, q, 1, y + z - q);
    } else {
      DivisionUnique(y + z, q, 0, y + z);
    }
  }

  function Pow256(k: nat): (r: nat)
    ensures r > 0
  {
    if k == 0 then 1 else 256 * Pow256(k - 1)
  }

  function Pow2(n: nat): (r: nat)
    ensures r > 0
  {
    if n == 0 then 1 else 2 * Pow2(n - 1)
  }

  /** A power of two is no multiple of an odd prime. */
  lemma {:induction false} Pow2NotMultiple(n: nat, q: int)
    requires IsPrime(q) && q % 2 == 1
    ensures Pow2(n) % q != 0
  {
    if n == 0 {
      DivisionUnique(1, q, 0, 1);
    } else {
      Pow2NotMultiple(n - 1, q);
      DivisionUnique(2, q, 0, 2);
      if Pow2(n) % q == 0 {
        PrimeDividesProduct(2, Pow2(n - 1), q);
      }
    }
  }
}
