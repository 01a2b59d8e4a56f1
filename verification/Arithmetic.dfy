/** Powers, residues and the integer logarithm. */
module Arithmetic {

  function Pow(b: nat, n: nat): (r: nat)
    ensures b > 0 ==> r > 0
  {
    if n == 0 then 1 else b * Pow(b, n - 1)
  }

  lemma MulAssoc(x: int, y: int, z: int)
    ensures x * (y * z) == (x * y) * z
  {
  }

  lemma {:induction false} PowAdd(b: nat, m: nat, n: nat)
    ensures Pow(b, m + n) == Pow(b, m) * Pow(b, n)
  {
    if m > 0 {
      PowAdd(b, m - 1, n);
      assert Pow(b, m + n) == b * Pow(b, m - 1 + n);
      MulAssoc(b, Pow(b, m - 1), Pow(b, n));
    }
  }

  lemma PowMonotone(b: nat, m: nat, n: nat)
    requires b > 0 && m <= n
    ensures Pow(b, m) <= Pow(b, n)
  {
    PowAdd(b, n - m, m);
    MulAtLeast(Pow(b, n - m), Pow(b, m));
  }

  lemma {:induction false} BitsOfBytes(n: nat)
    ensures Pow(2, 8 * n) == Pow(256, n)
  {
    if n > 0 {
      BitsOfBytes(n - 1);
      PowAdd(2, 8, 8 * (n - 1));
      assert Pow(2, 8) == 256;
      assert 8 * n == 8 + 8 * (n - 1);
    }
  }

  lemma ModStep(x: nat, p: nat)
    requires p > 0
    ensures x % (256 * p) == x % 256 + 256 * ((x / 256) % p)
  {
    var q, r := x / 256, x % 256;
    var a, b := q / p, q % p;
    assert q == a * p + b;
    assert x == 256 * (a * p + b) + r;
    assert 256 * (a * p) == a * (256 * p);
    assert 0 <= 256 * b + r < 256 * p;
    ModUnique(x, 256 * p, a, 256 * b + r);
  }

  lemma MulAtLeast(a: int, m: int)
    requires a >= 1 && m >= 0
    ensures a * m >= m
  {
  }

  lemma MulLe(x: int, y: int, m: int)
    requires x <= y && m >= 0
    ensures x * m <= y * m
  {
    assert y * m == x * m + (y - x) * m;
    assert (y - x) * m >= 0;
  }

  lemma ModUnique(x: int, m: int, q: int, r: int)
    requires m > 0 && 0 <= r < m && x == q * m + r
    ensures x % m == r && x / m == q
  {
    var q', r' := x / m, x % m;
    assert x == q' * m + r';
    assert (q - q') * m == r' - r;
    assert (q' - q) * m == r - r';
    if q > q' {
      MulAtLeast(q - q', m);
    } else if q < q' {
      MulAtLeast(q' - q, m);
    }
  }

  lemma ModSmall(x: nat, m: nat)
    requires x < m
    ensures x % m == x
  {
    ModUnique(x, m, 0, x);
  }

  lemma Slot(size: nat, k: nat, n: nat)
    requires k < n
    ensures 0 <= size * k && size * k + size <= size * n
  {
    assert size * n == size * k + size * (n - k);
    if size > 0 {
      MulAtLeast(n - k, size);
      assert size * (n - k) == (n - k) * size;
    }
  }

  /** Which 1-based slots of `size` bytes lie inside a store of `n` of them. */
  lemma SlotBounds(size: nat, n: nat, id: nat)
    requires size > 0
    ensures id >= 1 && (id - 1) * size + size <= size * n <==> 1 <= id <= n
  {
    if 1 <= id <= n {
      Slot(size, id - 1, n);
      assert size * (id - 1) == (id - 1) * size;
    } else if id > n {
      Slot(size, n, id);
      assert (id - 1) * size + size == size * id;
    }
  }

  lemma DividesMul(m: int, k: int)
    requires m > 0
    ensures (k * m) % m == 0
  {
    ModUnique(k * m, m, k, 0);
  }

  lemma PowDivides(b: nat, m: nat, n: nat)
    requires b > 0 && m <= n
    ensures Pow(b, m) > 0 && Pow(b, n) % Pow(b, m) == 0
  {
    PowAdd(b, n - m, m);
    DividesMul(Pow(b, m), Pow(b, n - m));
  }

  // ---- residues ----

  /** `x` and `y` agree modulo `m`. */
  ghost predicate Cong(x: int, y: int, m: int)
    requires m > 0
  {
    (x - y) % m == 0
  }

  lemma CongRefl(x: int, m: int)
    requires m > 0
    ensures Cong(x, x, m)
  {
  }

  lemma CongAdd(x: int, x': int, y: int, y': int, m: int)
    requires m > 0 && Cong(x, x', m) && Cong(y, y', m)
    ensures Cong(x + y, x' + y', m)
  {
    var p, q := (x - x') / m, (y - y') / m;
    assert (x + y) - (x' + y') == p * m + q * m == (p + q) * m;
    DividesMul(m, p + q);
  }

  lemma CongSym(x: int, y: int, m: int)
    requires m > 0 && Cong(x, y, m)
    ensures Cong(y, x, m)
  {
    var p := (x - y) / m;
    assert y - x == (-p) * m;
    DividesMul(m, -p);
  }

  lemma CongTrans(x: int, y: int, z: int, m: int)
    requires m > 0 && Cong(x, y, m) && Cong(y, z, m)
    ensures Cong(x, z, m)
  {
    var p, q := (x - y) / m, (y - z) / m;
    assert x - z == p * m + q * m == (p + q) * m;
    DividesMul(m, p + q);
  }

  /** Truncation to a width that `m` divides does not change the residue. */
  lemma CongTruncate(x: int, w: int, m: int)
    requires m > 0 && w > 0 && w % m == 0
    ensures Cong(x % w, x, m)
  {
    var p, q := x / w, w / m;
    assert x % w - x == -(p * w);
    assert w == q * m;
    assert p * w == (p * q) * m;
    assert -((p * q) * m) == (-(p * q)) * m;
    DividesMul(m, -(p * q));
  }

  lemma CongWeaken(x: int, y: int, w: int, m: int)
    requires m > 0 && w > 0 && w % m == 0 && Cong(x, y, w)
    ensures Cong(x, y, m)
  {
    var p, q := (x - y) / w, w / m;
    assert x - y == p * w;
    assert w == q * m;
    assert p * w == (p * q) * m;
    DividesMul(m, p * q);
  }

  lemma CongIffMod(x: int, y: int, m: int)
    requires m > 0
    ensures Cong(x, y, m) <==> x % m == y % m
  {
    var p, q := x / m, y / m;
    assert x == p * m + x % m && y == q * m + y % m;
    if Cong(x, y, m) {
      var k := (x - y) / m;
      assert x == k * m + y == (k + q) * m + y % m;
      ModUnique(x, m, k + q, y % m);
    }
    if x % m == y % m {
      assert x - y == (p - q) * m;
      DividesMul(m, p - q);
    }
  }

  // ---- the integer logarithm ----

  /** The least exponent whose power of `power` exceeds `x` (1 when `x` is 0). */
  method LogAny(x: nat, power: nat) returns (res: nat)
    requires power >= 2
    ensures res >= 1 && x < Pow(power, res)
    ensures Pow(power, res - 1) <= if x == 0 then 1 else x
  {
    res := 0;
    var t := power;
    assert Pow(power, 1) == power * Pow(power, 0);
    while t <= x
      invariant t == Pow(power, res + 1)
      invariant Pow(power, res) <= if x == 0 then 1 else x
      decreases x - t
    {
      MulAtLeast(t, 1);
      assert t * power >= t * 2 by { MulAtLeast(power - 1, t); }
      res := res + 1;
      t := t * power;
    }
    res := res + 1;
  }
}
