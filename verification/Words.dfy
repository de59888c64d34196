/** Machine words of 32 and 64 bits, the arithmetic of whole multiples, and other facts shared between modules. */
module Words {

  datatype Option<T> = None | Some(value: T)

  const UINT32_MAX := 0xFFFF_FFFF
  const TWO_32 := 0x1_0000_0000
  const TWO_64 := 0x1_0000_0000_0000_0000

  type U32 = n: int | 0 <= n <= UINT32_MAX
  type U64 = n: int | 0 <= n < TWO_64

  function Wrap32(n: int): (r: U32)
    ensures 0 <= n <= UINT32_MAX ==> r == n
  {
    n % TWO_32
  }

  function Wrap64(n: int): (r: U64)
    ensures 0 <= n < TWO_64 ==> r == n
  {
    n % TWO_64
  }

  lemma WrapOnce(n: nat)
    requires n < 2 * TWO_32
    ensures Wrap32(n) == if n <= UINT32_MAX then n else n - TWO_32
  {
  }

  lemma WrapLeast(x: nat, base: nat)
    ensures Wrap32(base + x) <= base + Wrap32(x)
  {
    var p, m := x / TWO_32, x % TWO_32;
    var k, w := (base + m) / TWO_32, (base + m) % TWO_32;
    DivModUnique(base + x, TWO_32, p + k, w);
  }

  // ----- products and quotients -----

  lemma MulAtLeast(a: int, d: int)
    requires a >= 1 && d > 0
    ensures a * d >= d
  {
  }

  lemma MulMonotone(a: int, b: int, c: int, d: int)
    requires 0 <= a <= c && 0 <= b <= d
    ensures 0 <= a * b <= c * d
  {
    assert a * b <= c * b;
    assert c * b <= c * d;
  }

  lemma DivModUnique(n: int, d: int, q: int, m: int)
    requires d > 0 && n == q * d + m && 0 <= m < d
    ensures n / d == q && n % d == m
  {
    var p, k := n / d, n % d;
    assert n == p * d + k;
    assert (p - q) * d == m - k && (q - p) * d == k - m;
    if p < q {
      MulAtLeast(q - p, d);
    } else if p > q {
      MulAtLeast(p - q, d);
    }
  }

  lemma MultipleOf(q: int, d: int)
    requires d > 0
    ensures (q * d) % d == 0 && (q * d) / d == q
  {
    DivModUnique(q * d, d, q, 0);
  }

  // ----- whole multiples -----

  predicate IsMultiple(n: int, g: int)
    requires g > 0
  {
    n % g == 0
  }

  /** The largest multiple of `g` that is not above `n`. */
  function DownTo(n: int, g: int): int
    requires g > 0
  {
    n - n % g
  }

  /** The smallest multiple of `g` that is not below `n`. */
  function UpTo(n: int, g: int): int
    requires g > 0
  {
    if IsMultiple(n, g) then n else DownTo(n, g) + g
  }

  /** What is left over. */
  lemma DownToIs(n: int, g: int)
    requires g > 0
    ensures IsMultiple(DownTo(n, g), g) && DownTo(n, g) <= n < DownTo(n, g) + g
    ensures DownTo(n, g) == n <==> IsMultiple(n, g)
    ensures n % g == n - DownTo(n, g)
    ensures DownTo(n, g) == n / g * g
    ensures n >= 0 ==> DownTo(n, g) >= 0
  {
    assert n == n / g * g + n % g;
    MultipleOf(n / g, g);
    if n >= 0 { MulMonotone(0, g, n / g, g); }
  }

  lemma SumIsMultiple(a: int, b: int, g: int)
    requires g > 0 && IsMultiple(a, g) && IsMultiple(b, g)
    ensures IsMultiple(a + b, g) && IsMultiple(a - b, g)
  {
    var p, q := a / g, b / g;
    assert a == p * g && b == q * g;
    assert a + b == (p + q) * g && a - b == (p - q) * g;
    MultipleOf(p + q, g);
    MultipleOf(p - q, g);
  }

  lemma GroupIsMultiple(g: int)
    requires g > 0
    ensures IsMultiple(g, g) && IsMultiple(0, g)
  {
    MultipleOf(1, g);
    MultipleOf(0, g);
  }

  /** Two multiples are equal or a whole group apart. */
  lemma MultiplesApart(a: int, b: int, g: int)
    requires g > 0 && IsMultiple(a, g) && IsMultiple(b, g) && a < b
    ensures a + g <= b
  {
    var p, q := a / g, b / g;
    assert a == p * g && b == q * g;
    assert (q - p) * g == b - a && (p - q) * g == a - b;
    if q > p {
      MulAtLeast(q - p, g);
    } else {
      MulMonotone(0, g, p - q, g);
    }
  }

  /** The smallest multiple not below: a multiple, not below, and below any other that is not. */
  lemma UpToIs(n: int, g: int)
    requires g > 0
    ensures IsMultiple(UpTo(n, g), g) && n <= UpTo(n, g) < n + g
    ensures UpTo(n, g) == n <==> IsMultiple(n, g)
  {
    hide IsMultiple, DownTo;
    DownToIs(n, g);
    GroupIsMultiple(g);
    SumIsMultiple(DownTo(n, g), g, g);
  }

  lemma UpToLeast(n: int, g: int, m: int)
    requires g > 0 && IsMultiple(m, g) && n <= m
    ensures UpTo(n, g) <= m
  {
    hide UpTo, IsMultiple;
    UpToIs(n, g);
    if m < UpTo(n, g) { MultiplesApart(m, UpTo(n, g), g); }
  }

  lemma DownToMost(n: int, g: int, m: int)
    requires g > 0 && IsMultiple(m, g) && m <= n
    ensures m <= DownTo(n, g)
  {
    hide DownTo, IsMultiple;
    DownToIs(n, g);
    if DownTo(n, g) < m { MultiplesApart(DownTo(n, g), m, g); }
  }

  // ----- sequences -----

  lemma Associative<T>(a: seq<T>, b: seq<T>, c: seq<T>)
    ensures a + (b + c) == a + b + c
  {
  }

  lemma TailOfConcat<T>(a: seq<T>, b: seq<T>)
    requires a != []
    ensures (a + b)[0] == a[0] && (a + b)[1..] == a[1..] + b
  {
  }
}
