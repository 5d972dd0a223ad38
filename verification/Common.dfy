/** Small vocabulary shared by every component model. */
module Common {

  type byte = x: int | 0 <= x < 256

  datatype Option<+T> = None | Some(value: T)

  datatype Result<+T, +E> = Ok(value: T) | Err(error: E)

  const U16_LIMIT := 0x1_0000
  const U32_LIMIT := 0x1_0000_0000
  const U64_LIMIT := 0x1_0000_0000_0000_0000
  const U64_MAX := U64_LIMIT - 1

  function Min(a: int, b: int): int { if a <= b then a else b }

  function Max(a: int, b: int): int { if a >= b then a else b }

  /** What 64-bit saturating arithmetic makes of a number. */
  function Saturate(n: nat): nat { Min(n, U64_MAX) }

  function Pow2(n: nat): (p: nat)
    ensures p >= 1
  {
    if n == 0 then 1 else 2 * Pow2(n - 1)
  }

  lemma MulLe(a: int, b: int, scale: int)
    requires a <= b && scale >= 0
    ensures a * scale <= b * scale
  {
  }

  lemma Distribute(a: int, b: int, scale: int)
    ensures (a + b) * scale == a * scale + b * scale
  {
  }

  /** Quotient and remainder are determined by the division equation. */
  lemma DivisionUnique(a: int, m: int, q: int, r: int)
    requires a == q * m + r && 0 <= r < m
    ensures a / m == q && a % m == r
  {
    var d := a / m;
    assert a == d * m + a % m;
    if d > q {
      MulLe(q + 1, d, m);
    } else if d < q {
      MulLe(d + 1, q, m);
    }
  }

  lemma {:induction false} Pow2Sum(m: nat, n: nat)
    ensures Pow2(m + n) == Pow2(m) * Pow2(n)
  {
    if m != 0 {
      Pow2Sum(m - 1, n);
      assert Pow2(m + n) == 2 * (Pow2(m - 1) * Pow2(n));
    }
  }

  lemma Pow2Seven(n: nat)
    ensures Pow2(n + 7) == 128 * Pow2(n)
  {
    Pow2Sum(7, n);
    assert Pow2(7) == 128 by { assert Pow2(4) == 16; }
  }

  predicate IsPowerOfTwo(n: nat) { n == 1 || (n > 1 && n % 2 == 0 && IsPowerOfTwo(n / 2)) }

  // ------------------------------------------------------------------ little-endian fields

  function ReadLe(b: seq<byte>, at: nat, width: nat): (n: nat)
    requires at + width <= |b|
    ensures n < Pow2(8 * width)
    decreases width, |b|
  {
    if width == 0 then 0
    else
      Pow2Eight(8 * (width - 1));
      var low: int := b[at];
      low + 0x100 * ReadLe(b, at + 1, width - 1)
  }

  function WriteLe(n: int, width: nat): (b: seq<byte>)
    ensures |b| == width
    decreases width, n
  {
    if width == 0 then [] else [n % 0x100] + WriteLe(n / 0x100, width - 1)
  }

  /** Reading back a written field gives the number reduced to the field's width. */
  lemma {:induction false} LeRoundTrip(before: seq<byte>, n: int, width: nat, after: seq<byte>)
    ensures ReadLe(before + WriteLe(n, width) + after, |before|, width) == n % Pow2(8 * width)
    decreases width
  {
    var b := before + WriteLe(n, width) + after;
    if width == 0 {
      assert Pow2(0) == 1;
    } else {
      var low, high := n % 0x100, n / 0x100;
      assert b == (before + [low]) + WriteLe(high, width - 1) + after;
      LeRoundTrip(before + [low], high, width - 1, after);
      Pow2Eight(8 * (width - 1));
      SplitRemainder(n, Pow2(8 * (width - 1)));
    }
  }

  lemma Pow2Eight(n: nat)
    ensures Pow2(n + 8) == 0x100 * Pow2(n)
  {
    Pow2Sum(8, n);
    assert Pow2(8) == 0x100 by { assert Pow2(4) == 16; }
  }

  lemma SplitRemainder(n: int, m: nat)
    requires m >= 1
    ensures n % (0x100 * m) == n % 0x100 + 0x100 * (n / 0x100 % m)
  {
    var low, high := n % 0x100, n / 0x100;
    var q, r := high / m, high % m;
    assert high == q * m + r;
    assert 0x100 * (q * m) == q * (0x100 * m);
    DivisionUnique(n, 0x100 * m, q, low + 0x100 * r);
  }

  /** A field depends on its own bytes only. */
  lemma {:induction false} ReadLeSame(a: seq<byte>, i: nat, b: seq<byte>, j: nat, width: nat)
    requires i + width <= |a| && j + width <= |b| && a[i..i + width] == b[j..j + width]
    ensures ReadLe(a, i, width) == ReadLe(b, j, width)
    decreases width
  {
    if width != 0 {
      assert a[i] == a[i..i + width][0] && b[j] == b[j..j + width][0];
      assert a[i + 1..i + width] == a[i..i + width][1..] && b[j + 1..j + width] == b[j..j + width][1..];
      ReadLeSame(a, i + 1, b, j + 1, width - 1);
    }
  }
}
