/** Shared vocabulary: options, machine widths, powers of two and shifts. */
module Prelude {

  datatype Option<+T> = None | Some(value: T) {
    function GetOr(default: T): T {
      if Some? then value else default
    }
  }

  const PAGE_SIZE: nat := 4096
  const TWO_64: nat := 0x1_0000_0000_0000_0000

  /** 2 to the power e. */
  function Pow2(e: nat): (r: nat)
    ensures r >= 1
  {
    if e == 0 then 1 else 2 * Pow2(e - 1)
  }

  /** x >> o, one bit at a time. */
  function Shr(x: nat, o: nat): nat {
    if o == 0 then x else Shr(x, o - 1) / 2
  }

  /** x << o, one bit at a time. */
  function Shl(x: nat, o: nat): nat
    decreases o
  {
    if o == 0 then x else Shl(2 * x, o - 1)
  }

  lemma {:induction false} ShrShl(x: nat, o: nat)
    ensures Shr(Shl(x, o), o) == x
    decreases o
  {
    if o == 0 {
    } else {
      ShrShl(2 * x, o - 1);
    }
  }

  lemma {:induction false} ShrMonotone(x: nat, y: nat, o: nat)
    requires x <= y
    ensures Shr(x, o) <= Shr(y, o)
  {
    if o == 0 {
    } else {
      ShrMonotone(x, y, o - 1);
    }
  }

  /** Shifting further keeps equal values equal and keeps the order. */
  lemma {:induction false} ShrLift(x: nat, y: nat, lo: nat, hi: nat)
    requires lo <= hi
    ensures Shr(x, lo) == Shr(y, lo) ==> Shr(x, hi) == Shr(y, hi)
    ensures Shr(x, lo) <= Shr(y, lo) ==> Shr(x, hi) <= Shr(y, hi)
    decreases hi - lo
  {
    if lo == hi {
    } else {
      ShrLift(x, y, lo + 1, hi);
    }
  }

  lemma {:induction false} ShlIsMul(x: nat, o: nat)
    ensures Shl(x, o) == x * Pow2(o)
    decreases o
  {
    if o == 0 {
    } else {
      ShlIsMul(2 * x, o - 1);
    }
  }

  lemma {:induction false} Pow2Monotone(a: nat, b: nat)
    requires a <= b
    ensures Pow2(a) <= Pow2(b)
    decreases b - a
  {
    if a == b {
    } else {
      Pow2Monotone(a + 1, b);
    }
  }

  /** x >> o is the number of the block of 2^o numbers that x lies in. */
  lemma {:induction false} ShrBounds(x: nat, o: nat)
    ensures Shl(Shr(x, o), o) <= x < Shl(Shr(x, o) + 1, o)
  {
    if o == 0 {
    } else {
      ShrBounds(x, o - 1);
      var s := Shr(x, o - 1);
      ShlMonotone(2 * (s / 2), s, o - 1);
      ShlMonotone(s + 1, 2 * (s / 2 + 1), o - 1);
    }
  }

  lemma {:induction false} ShlMonotone(x: nat, y: nat, o: nat)
    requires x <= y
    ensures Shl(x, o) <= Shl(y, o)
    decreases o
  {
    if o == 0 {
    } else {
      ShlMonotone(2 * x, 2 * y, o - 1);
    }
  }

  lemma {:induction false} ShlNext(x: nat, o: nat)
    ensures Shl(x, o + 1) == 2 * Shl(x, o)
    decreases o
  {
    if o == 0 {
    } else {
      ShlNext(2 * x, o - 1);
    }
  }

  lemma Distribute(a: nat, b: nat, s: nat)
    ensures (a + b) * s == a * s + b * s
  {
  }

  lemma MulAssociates(a: nat, b: nat, c: nat)
    ensures a * b * c == a * (b * c)
  {
  }

  lemma MulGap(i: nat, j: nat, s: nat)
    requires i < j
    ensures i * s + s <= j * s
  {
    var d: nat := j - i - 1;
    Distribute(i, 1 + d, s);
    Distribute(1, d, s);
  }

  lemma MulMonotone(n: nat, a: nat, b: nat)
    requires a <= b
    ensures n * a <= n * b
  {
    Distribute(a, b - a, n);
  }

  lemma DivUnique(x: nat, q: nat, s: nat)
    requires s > 0 && q * s <= x < q * s + s
    ensures x / s == q
  {
    var d := x / s;
    assert d * s <= x < d * s + s;
    if d < q {
      MulGap(d, q, s);
    } else if q < d {
      MulGap(q, d, s);
    }
  }

  lemma DivBound(x: nat, a: nat, b: nat)
    requires x < a * b
    ensures b > 0 && x / b < a
  {
    if b > 0 && x / b >= a {
      MulMonotone(b, a, x / b);
    }
  }

  lemma DivMod(q: nat, r: nat, s: nat)
    requires r < s
    ensures (q * s + r) / s == q && (q * s + r) % s == r
  {
    DivUnique(q * s + r, q, s);
  }

  /** Numbers less than n apart differ modulo n. */
  lemma ModDiffers(x: nat, y: nat, n: nat)
    requires n > 0 && x < y < x + n
    ensures x % n != y % n
  {
    var q := x / n;
    assert x == q * n + x % n;
    if x % n == y % n {
      assert y == (y / n) * n + x % n;
      MulGap(q, y / n, n);
    }
  }

  lemma {:induction false} Pow2Add(a: nat, b: nat)
    ensures Pow2(a + b) == Pow2(a) * Pow2(b)
    decreases b
  {
    if b == 0 {
    } else {
      Pow2Add(a, b - 1);
      MulAssociates(2, Pow2(a), Pow2(b - 1));
      MulAssociates(Pow2(a), 2, Pow2(b - 1));
    }
  }

  /** A multiple of n more or less makes no difference modulo n. */
  lemma {:induction false} ModMultiple(x: nat, q: nat, n: nat)
    requires n > 0
    ensures (x + q * n) % n == x % n
  {
    var k, r := x / n, x % n;
    Distribute(k, q, n);
    assert x + q * n == (k + q) * n + r;
    DivMod(k + q, r, n);
  }
}
