/** Residues modulo the field order, computed the way each language computes them. */
module Field {

  type Modulus = n: nat | n > 1 witness 2

  predicate Residue(r: Modulus, x: int) {
    0 <= x < r
  }

  /** JavaScript's `%`: the remainder takes the sign of the dividend. */
  function JsRem(a: int, m: Modulus): int {
    if a >= 0 then a % m else -((-a) % m)
  }

  /** `toField`: the canonical residue, for negative inputs too. */
  function ToField(r: Modulus, x: int): (y: int)
    ensures Residue(r, y) && y == x % r
  {
    JsRemMod(r, x);
    JsRem(JsRem(x, r) + r, r)
  }

  lemma JsRemMod(r: Modulus, x: int)
    ensures -(r as int) < JsRem(x, r) < r
    ensures (JsRem(x, r) + r) % r == x % r
  {
    if x >= 0 {
      ModUnique(r, 1, x % r);
    } else {
      var q, m := (-x) / r, (-x) % r;
      assert -x == q * r + m;
      if m == 0 {
        assert x == (-q) * r + 0;
        ModUnique(r, -q, 0);
        ModUnique(r, 1, 0);
      } else {
        assert x == (-q - 1) * r + (r - m);
        ModUnique(r, -q - 1, r - m);
        ModUnique(r, 0, r - m);
      }
    }
  }

  /** A number written as a multiple of `r` plus a residue has that residue. */
  lemma ModUnique(r: Modulus, q: int, m: int)
    requires Residue(r, m)
    ensures (q * r + m) % r == m
  {
    var x := q * r + m;
    var d := x / r - q;
    assert x == (x / r) * r + x % r;
    assert d * r == m - x % r;
    Multiple(r, d);
  }

  lemma Multiple(r: nat, d: int)
    ensures d >= 0 ==> d * r >= 0
    ensures d >= 1 ==> d * r >= r
    ensures d <= -1 ==> d * r <= -(r as int)
  {
  }

  lemma ResidueMod(r: Modulus, x: int)
    requires Residue(r, x)
    ensures x % r == x
  {
    ModUnique(r, 0, x);
  }

  lemma AddMod(r: Modulus, a: int, b: int)
    ensures (a % r + b) % r == (a + b) % r
    ensures (a + b % r) % r == (a + b) % r
  {
    ModShift(r, a % r + b, a / r);
    assert a + b == a % r + b + (a / r) * r;
    ModShift(r, a + b % r, b / r);
    assert a + b == a + b % r + (b / r) * r;
  }

  lemma MulMod(r: Modulus, a: int, b: int)
    ensures ((a % r) * b) % r == (a * b) % r
  {
    var q := a / r;
    assert a == a % r + q * r;
    assert a * b == (a % r) * b + (q * b) * r by {
      assert (a % r + q * r) * b == (a % r) * b + (q * r) * b;
      assert (q * r) * b == (q * b) * r;
    }
    ModShift(r, (a % r) * b, q * b);
  }

  lemma ModShift(r: Modulus, x: int, q: int)
    ensures (x + q * r) % r == x % r
  {
    assert x == (x / r) * r + x % r;
    assert x + q * r == (x / r + q) * r + x % r;
    ModUnique(r, x / r + q, x % r);
  }

  // ---- Field arithmetic on residues ----

  function FrAdd(r: Modulus, a: int, b: int): (y: int)
    ensures Residue(r, y)
  {
    (a + b) % r
  }

  function FrSub(r: Modulus, a: int, b: int): (y: int)
    ensures Residue(r, y)
  {
    (a - b) % r
  }

  function FrMul(r: Modulus, a: int, b: int): (y: int)
    ensures Residue(r, y)
  {
    (a * b) % r
  }

  /** Subtraction undoes addition, and the other way round. */
  lemma AddSub(r: Modulus, x: int, d: int)
    requires Residue(r, x)
    ensures FrSub(r, FrAdd(r, x, d), d) == x && FrAdd(r, FrSub(r, x, d), d) == x
  {
    AddMod(r, x + d, -d);
    AddMod(r, x - d, d);
    ResidueMod(r, x);
  }
}
