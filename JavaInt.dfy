/** Java `int` arithmetic: 32-bit two's-complement wrap-around and truncating division. */
module JavaInt {

  const TWO_32: int := 0x1_0000_0000
  const MIN_INT: int := -0x8000_0000
  const MAX_INT: int := 0x7FFF_FFFF

  predicate IsInt32(x: int) { MIN_INT <= x <= MAX_INT }

  /** The value a Java `int` holds after an operation whose exact result is `x`. */
  function Wrap(x: int): (r: int)
    ensures IsInt32(r)
    ensures (r - x) % TWO_32 == 0
    ensures IsInt32(x) ==> r == x
  {
    var m := x % TWO_32;
    if m <= MAX_INT then m else m - TWO_32
  }

  /** Java `a * b` on two `int` operands. */
  function Mul(a: int, b: int): (r: int)
    ensures IsInt32(r)
    ensures (r - a * b) % TWO_32 == 0
    ensures IsInt32(a * b) ==> r == a * b
  {
    Wrap(a * b)
  }

  /** Java `a + b` on two `int` operands. */
  function Add(a: int, b: int): (r: int)
    ensures IsInt32(r)
    ensures (r - (a + b)) % TWO_32 == 0
    ensures IsInt32(a + b) ==> r == a + b
  {
    Wrap(a + b)
  }

  /**
   * Java `a / b` for a positive divisor: the quotient truncated toward zero. The
   * divisors of the modelled code are constants such as `Integer.BYTES`, so the
   * negative divisors, and with them the overflow of `MIN_VALUE / -1`, do not arise.
   */
  function Div(a: int, b: int): (q: int)
    requires b > 0
    ensures a >= 0 ==> q == a / b
    ensures a >= 0 ==> q * b <= a < q * b + b
    ensures a < 0 ==> q * b - b < a <= q * b
    ensures IsInt32(a) ==> IsInt32(q)
  {
    var q := if a >= 0 then a / b else -((-a) / b);
    TruncatedBounds(a, b, q);
    q
  }

  lemma TruncatedBounds(a: int, b: int, q: int)
    requires b > 0
    requires a >= 0 ==> q == a / b
    requires a < 0 ==> q == -((-a) / b)
    ensures a >= 0 ==> q * b <= a < q * b + b
    ensures a < 0 ==> q * b - b < a <= q * b
  {
    if a >= 0 {
      assert a == (a / b) * b + a % b;
    } else {
      var p := (-a) / b;
      assert -a == p * b + (-a) % b;
      assert q * b == -(p * b);
    }
  }

  function DigitChar(d: int): char
    requires 0 <= d < 10
  {
    ('0' as int + d) as char
  }

  /** The decimal digits of `n`, most significant first, without leading zeros. */
  function Digits(n: nat): (s: string)
    ensures s != [] && forall i :: 0 <= i < |s| ==> '0' <= s[i] <= '9'
    ensures n > 0 ==> s[0] != '0'
    ensures n == 0 ==> s == "0"
  {
    if n < 10 then [DigitChar(n)] else Digits(n / 10) + [DigitChar(n % 10)]
  }

  /** `Integer.toString(n)`, which is also what `StringBuilder.append(int)` appends. */
  function ToString(n: int): (s: string)
    ensures s != [] && (s[0] == '-' <==> n < 0)
    ensures forall i :: 0 <= i < |s| ==> '0' <= s[i] <= '9' || (i == 0 && s[i] == '-')
    ensures |s| > 1 ==> s[0] != '0' && (s[0] == '-' ==> s[1] != '0')
  {
    if n < 0 then "-" + Digits(-n) else Digits(n)
  }
}
