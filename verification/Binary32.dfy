/** The conversion of an int to a float, as the assignments to sensors_event_t.data make it. Floats with
    an integer value are modelled by that value. */
module Binary32 {
  // The distance between neighbouring binary32 numbers at magnitude a: they have 24 significant bits.
  function Ulp(a: nat): (u: nat)
    ensures u >= 1
  {
    if a < 0x100_0000 then 1 else 2 * Ulp(a / 2)
  }

  // To the nearest multiple of u, and half way to the even one.
  function RoundTo(a: nat, u: nat): int
    requires u >= 1
  {
    var q, r := a / u, a % u;
    if 2 * r > u || (2 * r == u && q % 2 == 1) then (q + 1) * u else q * u
  }

  function ToFloat(x: int): int {
    if x >= 0 then RoundTo(x, Ulp(x)) else -RoundTo(-x, Ulp(-x))
  }

  ghost function Abs(x: int): nat {
    if x < 0 then -x else x
  }

  // The binary32 numbers with an integer value: up to 24 significant bits, shifted left.
  ghost predicate HasBits(y: int, m: nat, e: nat) {
    m <= 0x100_0000 && Abs(y) == m * Pow2(e)
  }

  ghost predicate IsFloat(y: int) {
    exists m, e :: HasBits(y, m, e)
  }

  ghost function Pow2(e: nat): (p: nat)
    ensures p >= 1
  {
    if e == 0 then 1 else 2 * Pow2(e - 1)
  }

  lemma {:induction false} Pow2Divides(k: nat, e: nat)
    requires k <= e
    ensures Pow2(e) == Pow2(e - k) * Pow2(k)
    decreases e
  {
    if k < e { Pow2Divides(k, e - 1); }
  }

  // Ulp(a) is a power of two, and a has 24 bits in front of it.
  lemma {:induction false} UlpIs(a: nat) returns (k: nat)
    ensures Ulp(a) == Pow2(k) && a < 0x100_0000 * Pow2(k) && (k > 0 ==> 0x80_0000 * Pow2(k) <= a)
    decreases a
  {
    if a < 0x100_0000 {
      k := 0;
    } else {
      var h := UlpIs(a / 2);
      k := h + 1;
    }
  }

  lemma RoundToIsNearest(a: nat, u: nat) returns (q: nat)
    requires u >= 1
    ensures RoundTo(a, u) == q * u && 2 * Abs(RoundTo(a, u) - a) <= u
    ensures 2 * Abs(RoundTo(a, u) - a) == u ==> q % 2 == 0
    ensures a / u <= q <= a / u + 1 && (a % u == 0 ==> q == a / u)
  {
    var d, r := a / u, a % u;
    assert a == d * u + r && (d + 1) * u == d * u + u;
    q := if 2 * r > u || (2 * r == u && d % 2 == 1) then d + 1 else d;
  }

  // No multiple of u is nearer to a than what is at most half of u away.
  lemma MultiplesApart(a: nat, u: nat, q: int, n: int)
    requires u >= 1 && 2 * Abs(q * u - a) <= u
    ensures Abs(q * u - a) <= Abs(n * u - a)
  {
    if n > q {
      assert n * u == q * u + (n - q) * u && (n - q) * u >= u by { MulAtLeast(n - q, u); }
    } else if n < q {
      assert n * u == q * u - (q - n) * u && (q - n) * u >= u by { MulAtLeast(q - n, u); }
    }
  }

  lemma MulAtLeast(n: nat, u: nat)
    requires n >= 1
    ensures n * u >= u
  {
    assert n * u == (n - 1) * u + u;
  }

  // A float of at least 2^23 units is a multiple of the unit.
  lemma LargeFloatIsMultiple(y: nat, m: nat, e: nat, k: nat) returns (n: nat)
    requires m <= 0x100_0000 && y == m * Pow2(e) && 0x80_0000 * Pow2(k) <= y
    ensures y == n * Pow2(k)
  {
    if e >= k {
      Pow2Divides(k, e);
      n := m * Pow2(e - k);
      assert m * (Pow2(e - k) * Pow2(k)) == n * Pow2(k);
    } else {
      Pow2Divides(e, k);
      SmallShift(m, Pow2(e), Pow2(k - e));
      assert Pow2(k - e) == 2 * Pow2(k - e - 1);
      n := 0x80_0000;
    }
  }

  // With fewer bits behind it, only the largest mantissa is large enough.
  lemma SmallShift(m: nat, p: nat, f: nat)
    requires p >= 1 && f >= 1 && m <= 0x100_0000 && 0x80_0000 * (f * p) <= m * p
    ensures 0x80_0000 * f <= m
  {
    assert 0x80_0000 * (f * p) == (0x80_0000 * f) * p;
    if m < 0x80_0000 * f {
      assert (0x80_0000 * f) * p == m * p + (0x80_0000 * f - m) * p;
      MulAtLeast(0x80_0000 * f - m, p);
    }
  }

  lemma NearestAmongFloats(a: nat, y: nat, m: nat, e: nat)
    requires m <= 0x100_0000 && y == m * Pow2(e)
    ensures Abs(RoundTo(a, Ulp(a)) - a) <= Abs(y - a)
  {
    var k := UlpIs(a);
    var u := Pow2(k);
    var q := RoundToIsNearest(a, u);
    if k == 0 {
      MultiplesApart(a, u, q, y);
    } else if 0x80_0000 * u <= y {
      var n := LargeFloatIsMultiple(y, m, e, k);
      MultiplesApart(a, u, q, n);
    } else {
      MultiplesApart(a, u, q, 0x80_0000);
    }
  }

  lemma RoundedIsFloat(a: nat)
    ensures IsFloat(RoundTo(a, Ulp(a))) && RoundTo(a, Ulp(a)) >= 0
  {
    var k := UlpIs(a);
    var q := RoundToIsNearest(a, Pow2(k));
    QuotientBelow(a, Pow2(k), 0x100_0000);
    assert HasBits(RoundTo(a, Ulp(a)), q, k);
  }

  lemma QuotientBelow(a: nat, u: nat, n: nat)
    requires u >= 1 && a < n * u
    ensures a / u < n
  {
    var q := a / u;
    assert a == q * u + a % u;
    if q >= n {
      MulMonotone(n, q, u);
      assert false;
    }
  }

  lemma MulMonotone(n: nat, q: nat, u: nat)
    requires n <= q
    ensures n * u <= q * u
  {
    assert q * u == n * u + (q - n) * u;
  }

  // The sign takes no part in the rounding.
  lemma SignIsKept(x: int)
    ensures var r := RoundTo(Abs(x), Ulp(Abs(x)));
      Abs(ToFloat(x)) == Abs(r) && (r >= 0 ==> Abs(ToFloat(x) - x) == Abs(r - Abs(x)))
  {
  }

  // An int becomes a float that no other float is nearer to; itself up to 2^24.
  lemma FloatIsNearest(x: int, y: int)
    ensures IsFloat(ToFloat(x))
    ensures IsFloat(y) ==> Abs(ToFloat(x) - x) <= Abs(y - x)
    ensures Abs(x) <= 0x100_0000 ==> ToFloat(x) == x
  {
    RoundedIsFloat(Abs(x));
    SignIsKept(x);
    var m, e :| HasBits(RoundTo(Abs(x), Ulp(Abs(x))), m, e);
    assert HasBits(ToFloat(x), m, e);
    if IsFloat(y) {
      FloatNoNearer(x, y);
    }
    if Abs(x) <= 0x100_0000 {
      assert Abs(x) == Abs(x) * Pow2(0);
      NearestAmongFloats(Abs(x), Abs(x), Abs(x), 0);
    }
  }

  lemma FloatNoNearer(x: int, y: int)
    requires IsFloat(y)
    ensures Abs(ToFloat(x) - x) <= Abs(y - x)
  {
    RoundedIsFloat(Abs(x));
    SignIsKept(x);
    var m, e :| HasBits(y, m, e);
    NearestAmongFloats(Abs(x), Abs(y), m, e);
  }

  // Half way between two floats, the one with the even last bit is taken.
  lemma FloatTiesToEven(x: int) returns (q: nat)
    ensures Abs(ToFloat(x)) == q * Ulp(Abs(x))
    ensures 2 * Abs(ToFloat(x) - x) == Ulp(Abs(x)) ==> q % 2 == 0
  {
    q := RoundToIsNearest(Abs(x), Ulp(Abs(x)));
    RoundedIsFloat(Abs(x));
    SignIsKept(x);
  }
}
