/** Integer-valued JavaScript numbers: 32-bit conversion and division that truncates toward zero. */
module JsNumber {
  const TWO_31 := 0x8000_0000
  const TWO_32 := 0x1_0000_0000
  const TWO_63 := 0x8000_0000_0000_0000
  const TWO_64 := 0x1_0000_0000_0000_0000

  type Int32 = i: int | -0x8000_0000 <= i < 0x8000_0000

  /** `x | 0` */
  function ToInt32(x: int): (i: Int32)
    ensures (x - i) % TWO_32 == 0
  {
    (x + TWO_31) % TWO_32 - TWO_31
  }

  /** `x >>> 0` */
  function ToUint32(x: int): (u: nat)
    ensures u < TWO_32 && (x - u) % TWO_32 == 0
  {
    x % TWO_32
  }

  /** The quotient that rounds toward zero. */
  function Quotient(x: int, y: int): (q: int)
    requires y != 0
  {
    if x >= 0 then (if y > 0 then x / y else -(x / -y))
    else if y > 0 then -(-x / y) else -x / -y
  }

  /** The remainder that takes the sign of the dividend. */
  function Remainder(x: int, y: int): (r: int)
    requires y != 0
  {
    x - Quotient(x, y) * y
  }

  lemma DivUnique(a: int, m: int, q: int, r: int)
    requires m > 0 && a == q * m + r && 0 <= r < m
    ensures a / m == q && a % m == r
  {
    var d := a / m - q;
    assert a == (a / m) * m + a % m;
    assert d * m == r - a % m;
    if d > 0 {
      Monotone(1, d, m);
    } else if d < 0 {
      Monotone(d, -1, m);
    }
  }

  lemma ToInt32Id(x: int)
    requires -TWO_31 <= x < TWO_31
    ensures ToInt32(x) == x
  {
    DivUnique(x + TWO_31, TWO_32, 0, x + TWO_31);
  }

  /** The two ways to say that `d` units of size `w` fit in `room`. */
  lemma FitsIff(d: int, room: int, w: nat)
    requires w > 0
    ensures d <= room / w <==> d * w <= room
  {
    var f := room / w;
    assert room == f * w + room % w;
    assert d <= f ==> d * w <= f * w;
    assert d > f ==> d * w >= (f + 1) * w;
  }

  lemma Monotone(x: int, y: int, m: nat)
    requires x <= y
    ensures x * m <= y * m
  {}

  lemma QuotientBounds(a: nat, b: int, q: int, r: int)
    requires b > 0 && a == q * b + r && 0 <= r < b
    ensures 0 <= q <= a
    ensures a < b ==> q == 0
  {
    if q < 0 {
      Monotone(q, -1, b);
    } else if q > 0 {
      Monotone(1, q, b);
      Monotone(1, b, q);
    }
  }

  lemma DivBounds(a: nat, b: int)
    requires b > 0
    ensures 0 <= a / b <= a && 0 <= a % b < b && a == (a / b) * b + a % b
    ensures a < b ==> a / b == 0
  {
    QuotientBounds(a, b, a / b, a % b);
  }
}