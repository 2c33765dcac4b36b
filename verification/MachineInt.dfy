/** Go's 64-bit integers, and the two overflow tests of base/gfsprcmgr/resource.go. */
module MachineInt {

  const MAX_INT32: int := 0x7fff_ffff
  const MAX_INT64: int := 0x7fff_ffff_ffff_ffff
  const MIN_INT64: int := -0x8000_0000_0000_0000
  const TWO_64: int := 0x1_0000_0000_0000_0000

  lemma Widths()
    ensures MAX_INT32 == 2147483647 && MAX_INT64 == 9223372036854775807 && MIN_INT64 == -9223372036854775808
    ensures TWO_64 == 18446744073709551616
  {
  }

  predicate IsInt64(x: int) {
    MIN_INT64 <= x <= MAX_INT64
  }

  /** The value an int64 holds after an operation whose exact result is x. */
  function Wrap64(x: int): (r: int)
    ensures IsInt64(r)
    ensures IsInt64(x) ==> r == x
  {
    if IsInt64(x) then x else (x - MIN_INT64) % TWO_64 + MIN_INT64
  }

  function Abs(x: int): nat {
    if x < 0 then -x else x
  }

  /** Division that truncates toward zero. */
  function TruncDiv(a: int, b: int): (q: int)
    requires b != 0
  {
    if (a < 0) == (b < 0) then NatDiv(Abs(a), Abs(b)) else 0 - NatDiv(Abs(a), Abs(b))
  }

  function NatDiv(x: nat, y: nat): (q: nat)
    requires y > 0
    ensures 0 <= x - q * y < y && q <= x
  {
    assert x == x / y * y + x % y;
    ProductGrows(x / y, y);
    x / y
  }

  lemma TruncDivRemainder(a: int, b: int)
    requires b != 0
    ensures Abs(a - TruncDiv(a, b) * b) < Abs(b)
    ensures Abs(TruncDiv(a, b)) <= Abs(a)
  {
  }

  lemma ProductGrows(x: nat, y: nat)
    requires y > 0
    ensures x * y >= x
  {
    assert x * y == x * (y - 1) + x;
  }

  lemma CloseMultiples(a: int, q: int, b: int)
    requires Abs(a * b - q * b) < Abs(b)
    ensures a == q
  {
    var d := a - q;
    assert a * b - q * b == d * b;
    if d != 0 {
      AbsOfProduct(d, b);
      ProductGrows(Abs(b), Abs(d));
    }
  }

  lemma TruncDivOfProduct(p: int, a: int, b: int)
    requires b != 0 && p == a * b
    ensures TruncDiv(p, b) == a
  {
    TruncDivRemainder(p, b);
    CloseMultiples(a, TruncDiv(p, b), b);
  }

  lemma AbsOfProduct(x: int, y: int)
    ensures Abs(x * y) == Abs(x) * Abs(y)
  {
  }

  /** Go's int64 quotient: MinInt64 / -1 wraps back to MinInt64. */
  function Div64(a: int, b: int): int
    requires b != 0
  {
    Wrap64(TruncDiv(a, b))
  }

  /** resource.go, addInt64WithOverflow: exact on every pair of int64 values. */
  function AddWithOverflow(a: int, b: int): (r: (int, bool))
    requires IsInt64(a) && IsInt64(b)
    ensures r.1 <==> IsInt64(a + b)
    ensures r.1 ==> r.0 == a + b
  {
    var c := Wrap64(a + b);
    (c, (c > a) == (b > 0))
  }

  /** resource.go, mulInt64WithOverflow. */
  function MulWithOverflow(a: int, b: int): (r: (int, bool))
    requires IsInt64(a) && IsInt64(b)
  {
    var c := Wrap64(a * b);
    if a == 0 || b == 0 || a == 1 || b == 1 then (c, true)
    else if a == MAX_INT64 || b == MIN_INT64 then (c, false)
    else (c, Div64(c, b) == a)
  }

  /**
   * The multiplication test says "fits" exactly for the products that fit, except for the two
   * factors that -1 exposes: MaxInt64 * -1 fits and is refused, MinInt64 * -1 does not and is
   * accepted.
   */
  lemma MulWithOverflowExact(a: int, b: int)
    requires IsInt64(a) && IsInt64(b)
    ensures MulWithOverflow(a, b).1 ==> IsInt64(a * b) || (a == MIN_INT64 && b == -1)
    ensures IsInt64(a * b) ==> MulWithOverflow(a, b).0 == a * b
    ensures (MulWithOverflow(a, b).1 <==> IsInt64(a * b)) <==> !(b == -1 && (a == MAX_INT64 || a == MIN_INT64))
  {
    if a == 0 || b == 0 || a == 1 || b == 1 {
    } else if a == MAX_INT64 || b == MIN_INT64 {
      ExtremeProducts(a, b);
    } else if IsInt64(a * b) {
      TruncDivOfProduct(a * b, a, b);
    } else {
      OverflowIsDetected(a, b);
    }
  }

  lemma ExtremeProducts(a: int, b: int)
    requires IsInt64(a) && IsInt64(b)
    requires a != 0 && b != 0 && a != 1 && b != 1
    requires a == MAX_INT64 || b == MIN_INT64
    ensures IsInt64(a * b) <==> a == MAX_INT64 && b == -1
  {
  }

  lemma OverflowIsDetected(a: int, b: int)
    requires IsInt64(a) && IsInt64(b) && !IsInt64(a * b)
    requires b != 0 && b != MIN_INT64
    ensures Div64(Wrap64(a * b), b) == a <==> (a == MIN_INT64 && b == -1)
  {
    var c := Wrap64(a * b);
    var k := (a * b - MIN_INT64) / TWO_64;
    assert a * b - c == k * TWO_64;
    assert k != 0;
    TruncDivRemainder(c, b);
    var q := TruncDiv(c, b);
    assert Abs(k * TWO_64) >= TWO_64;
    assert q != a by {
      assert Abs(c - q * b) < Abs(b) <= MAX_INT64;
      assert Abs(a * b - c) >= TWO_64;
    }
    if b == -1 {
      assert a * b == -a;
      assert a == MIN_INT64;
    } else {
      SmallQuotient(c, b);
    }
  }

  lemma SmallQuotient(c: int, b: int)
    requires IsInt64(c) && b != 0 && b != -1
    ensures IsInt64(TruncDiv(c, b))
  {
    TruncDivRemainder(c, b);
    if Abs(b) == 1 {
      assert b == 1;
    } else {
      DivideMore(Abs(c), Abs(b));
    }
  }

  lemma DivideMore(x: nat, y: nat)
    requires y >= 2
    ensures 2 * NatDiv(x, y) <= x
  {
    var q := NatDiv(x, y);
    assert q * y >= q * 2;
  }
}
