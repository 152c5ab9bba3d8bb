/**
 * Shared vocabulary: optional values, results that carry the Java exception a call would
 * throw, Java's 32-bit `int` and its truncating division.
 */
module Common {

  datatype Option<+T> = None | Some(value: T)

  /** The exceptions the modelled Java code can throw, named after their Java classes. */
  datatype JavaError =
    | NoSuchElementException
    | IllegalArgumentException
    | NullPointerException
    | ArrayIndexOutOfBoundsException
    | ArithmeticException
    | NegativeArraySizeException
    | IOException
    | DbException
    | TransactionAbortedException

  datatype Result<+T> = Ok(value: T) | Err(error: JavaError)

  const INT_MIN: int := -0x8000_0000
  const INT_MAX: int := 0x7fff_ffff

  /** Values of Java's `int`. */
  type Int32 = x: int | INT_MIN <= x <= INT_MAX

  /** Java's narrowing of an exact integer result to `int` (two's-complement wrap-around). */
  function Wrap32(x: int): (r: Int32)
    ensures INT_MIN <= x <= INT_MAX ==> r == x
    ensures (r - x) % 0x1_0000_0000 == 0
  {
    (x - INT_MIN) % 0x1_0000_0000 + INT_MIN
  }

  /** Narrowing an intermediate result does not change the narrowed sum. */
  lemma Wrap32Add(a: int, b: int)
    ensures Wrap32(Wrap32(a) + b) == Wrap32(a + b)
  {
    var n := 0x1_0000_0000;
    var q := (a - INT_MIN) / n;
    assert a - INT_MIN == q * n + (a - INT_MIN) % n;
    assert Wrap32(a) + b - INT_MIN == (a + b - INT_MIN) - q * n;
    ModShift(a + b - INT_MIN, q, n);
  }

  /** A value up to one `int` range above `INT_MAX` wraps around once. */
  lemma Wrap32Once(x: int)
    requires INT_MAX < x <= INT_MAX + 0x1_0000_0000
    ensures Wrap32(x) == x - 0x1_0000_0000
  {
    ModUnique(1, 0x1_0000_0000, x - INT_MIN - 0x1_0000_0000);
  }

  lemma ModShift(x: int, q: int, n: int)
    requires n > 0
    ensures (x - q * n) % n == x % n
  {
    var r := x % n;
    assert x == (x / n) * n + r;
    assert x - q * n == (x / n - q) * n + r by {
      assert (x / n - q) * n == (x / n) * n - q * n;
    }
    ModUnique(x / n - q, n, r);
  }

  /** The remainder of `k * n + r` is `r` when `0 <= r < n`. */
  lemma ModUnique(k: int, n: int, r: int)
    requires n > 0 && 0 <= r < n
    ensures (k * n + r) % n == r
  {
    var m := k * n + r;
    var d := m / n - k;
    assert m == (m / n) * n + m % n;
    assert d * n == r - m % n by {
      assert d * n == (m / n) * n - k * n;
    }
  }

  /** The quotient of `k * n + r` is `k` when `0 <= r < n`. */
  lemma DivUnique(k: int, n: int, r: int)
    requires n > 0 && 0 <= r < n
    ensures (k * n + r) / n == k
  {
    var m := k * n + r;
    ModUnique(k, n, r);
    assert m == (m / n) * n + r;
    assert (m / n - k) * n == 0 by {
      assert (m / n - k) * n == (m / n) * n - k * n;
    }
  }

  /** Java's `a + b` on `int`. */
  function Add32(a: Int32, b: Int32): Int32 { Wrap32(a + b) }

  /** An `int` counter's `++` after `k` increments from 0. */
  function Tally(n: Int32, ghost k: nat): (r: Int32)
    requires n == Wrap32(k)
    ensures r == Wrap32(k + 1)
  {
    Wrap32Add(k, 1);
    Add32(n, 1)
  }

  /** Java's `a - b` on `int`. */
  function Sub32(a: Int32, b: Int32): Int32 { Wrap32(a - b) }

  /** Java's `a * b` on `int`. */
  function Mul32(a: Int32, b: Int32): Int32 { Wrap32(a * b) }

  /** The exact quotient rounded toward zero, as Java's `/` computes it before narrowing. */
  function TruncDiv(a: int, b: int): int
    requires b != 0
  {
    if (a < 0) == (b < 0) then Abs(a) / Abs(b) else -(Abs(a) / Abs(b))
  }

  /** Euclidean division of naturals, stated as bounds on the quotient. */
  lemma NatDivBounds(x: nat, y: nat)
    requires y > 0
    ensures (x / y) * y <= x < (x / y + 1) * y
    ensures x / y <= x
    ensures y >= 2 ==> 2 * (x / y) <= x
  {
    var m, r := x / y, x % y;
    assert x == y * m + r;
    assert (m + 1) * y == m * y + y;
    if y >= 2 {
      assert m * y >= m * 2;
    }
  }

  /** `TruncDiv` drops the fractional part of the exact quotient, keeping its sign. */
  lemma TruncDivRoundsTowardZero(a: int, b: int)
    requires b != 0
    ensures Abs(TruncDiv(a, b)) * Abs(b) <= Abs(a) < (Abs(TruncDiv(a, b)) + 1) * Abs(b)
    ensures TruncDiv(a, b) != 0 ==> (TruncDiv(a, b) < 0 <==> (a < 0) != (b < 0))
    ensures a >= 0 && b > 0 ==> TruncDiv(a, b) == a / b
  {
    var q := Abs(a) / Abs(b);
    NatDivBounds(Abs(a), Abs(b));
    assert Abs(TruncDiv(a, b)) == q;
  }

  /**
   * Java's `a / b` on `int`: rounded toward zero (Dafny's `/` is Euclidean), with the one
   * overflow `INT_MIN / -1 == INT_MIN`.
   */
  function Div32(a: Int32, b: Int32): (q: Int32)
    requires b != 0
    ensures a != INT_MIN || b != -1 ==> q == TruncDiv(a, b)
    ensures a == INT_MIN && b == -1 ==> q == INT_MIN
  {
    NatDivBounds(Abs(a), Abs(b));
    Wrap32(TruncDiv(a, b))
  }

  /** Java's `a % b` on `int`: what the division rounded toward zero leaves over. */
  function Rem32(a: Int32, b: Int32): (r: Int32)
    requires b != 0
    ensures a >= 0 && b > 0 ==> r == a % b
  {
    TruncDivRoundsTowardZero(a, b);
    NatDivBounds(Abs(a), Abs(b));
    Wrap32(a - TruncDiv(a, b) * b)
  }

  /** Euclidean division by a positive divisor is monotone. */
  lemma DivMonotone(a: int, b: int, d: int)
    requires 0 <= a <= b && d > 0
    ensures a / d <= b / d
  {
    NatDivBounds(a, d);
    NatDivBounds(b, d);
    MulCancel(a / d, b / d + 1, d);
  }

  /** A positive factor can be cancelled from a strict inequality. */
  lemma MulCancel(x: int, y: int, d: int)
    requires d > 0 && x * d < y * d
    ensures x < y
  {
    assert (y - x) * d == y * d - x * d;
  }

  function Abs(x: int): nat { if x < 0 then -x else x }

  function Min(a: int, b: int): (r: int)
    ensures r <= a && r <= b && (r == a || r == b)
  {
    if a <= b then a else b
  }

  function Max(a: int, b: int): (r: int)
    ensures r >= a && r >= b && (r == a || r == b)
  {
    if a >= b then a else b
  }

  /** The largest of a non-empty sequence of `int`s. */
  function MaxOf(vs: seq<Int32>): (r: Int32)
    requires vs != []
    ensures r in vs && forall v :: v in vs ==> v <= r
  {
    if |vs| == 1 then vs[0]
    else
      var init := vs[..|vs| - 1];
      assert vs == init + [vs[|vs| - 1]];
      Max(MaxOf(init), vs[|vs| - 1])
  }

  /** The smallest of a non-empty sequence of `int`s. */
  function MinOf(vs: seq<Int32>): (r: Int32)
    requires vs != []
    ensures r in vs && forall v :: v in vs ==> r <= v
  {
    if |vs| == 1 then vs[0]
    else
      var init := vs[..|vs| - 1];
      assert vs == init + [vs[|vs| - 1]];
      Min(MinOf(init), vs[|vs| - 1])
  }

  /** A second update of the same key overrides the first. */
  lemma Overwrite<K, V>(m: map<K, V>, k: K, v: V, w: V)
    ensures m[k := v][k := w] == m[k := w]
  {
  }

  /** Java's rendering of a possibly-null string in a concatenation. */
  function JavaStr(s: Option<string>): string
  {
    match s
    case None => "null"
    case Some(v) => v
  }
}
