// The M extension: the words the simulator computes for multiplications and divisions, read as
// numbers, and what they mean for all operands.
module MExtension {
  import opened Isa

  type u32 = x: int | 0 <= x < 0x1_0000_0000

  function Signed(x: u32): int { if x < 0x8000_0000 then x else x - 0x1_0000_0000 }

  /** Conversion of an integer to uint32_t. */
  function ToWord(v: int): u32 { v % 0x1_0000_0000 }

  /** Conversion of an integer to a signed 64-bit value. */
  function ToInt64(v: int): int {
    var u := v % 0x1_0000_0000_0000_0000;
    if u < 0x8000_0000_0000_0000 then u else u - 0x1_0000_0000_0000_0000
  }

  function Abs(a: int): nat { if a < 0 then -a else a }

  /** C division: rounds toward zero. */
  function TruncDiv(a: int, b: int): int
    requires b != 0
  {
    if (a >= 0) == (b > 0) then Abs(a) / Abs(b) else -(Abs(a) / Abs(b))
  }

  /** C remainder: has the sign of the dividend. */
  function TruncRem(a: int, b: int): int
    requires b != 0
  {
    if a >= 0 then Abs(a) % Abs(b) else -(Abs(a) % Abs(b))
  }

  /** The register value each instruction writes. */
  function Compute(op: MulOp, a: u32, b: u32): u32 {
    match op
    case Mul => ToWord(Signed(a) * Signed(b))
    case Mulh => ToWord(ToInt64(Signed(a) * Signed(b)) / 0x1_0000_0000)
    case Mulhsu => ToWord(ToInt64(Signed(a) % 0x1_0000_0000_0000_0000 * b) / 0x1_0000_0000)
    case Mulhu => ToWord(a * b % 0x1_0000_0000_0000_0000 / 0x1_0000_0000)
    case Div =>
      if Signed(a) == -0x8000_0000 && Signed(b) == -1 then a
      else if b != 0 then ToWord(TruncDiv(Signed(a), Signed(b)))
      else 0xFFFF_FFFF
    case Divu => if b != 0 then a / b else 0xFFFF_FFFF
    case Rem =>
      if Signed(a) == -0x8000_0000 && Signed(b) == -1 then 0
      else if b != 0 then ToWord(TruncRem(Signed(a), Signed(b)))
      else a
    case Remu => if b != 0 then a % b else a
  }

  lemma SignedOfHigh(p: int)
    requires -0x4000_0000_0000_0000 * 2 <= p < 0x4000_0000_0000_0000 * 2
    ensures ToInt64(p) == p
    ensures Signed(ToWord(p / 0x1_0000_0000)) == p / 0x1_0000_0000
    ensures ToWord(p) + 0x1_0000_0000 * (p / 0x1_0000_0000) == p
  {
  }

  lemma ProductBounds(x: int, y: int, m: nat, n: nat)
    requires Abs(x) <= m && Abs(y) <= n
    ensures -(m * n) <= x * y <= m * n
  {
    assert 0 <= (m - x) * (n + y) + (m + x) * (n - y);
    assert 0 <= (m - x) * (n - y) + (m + x) * (n + y);
  }

  /** MUL and MULH: the two halves of the signed product. */
  lemma SignedProduct(a: u32, b: u32)
    ensures Compute(Mul, a, b) + 0x1_0000_0000 * Signed(Compute(Mulh, a, b)) == Signed(a) * Signed(b)
  {
    ProductBounds(Signed(a), Signed(b), 0x8000_0000, 0x8000_0000);
    SignedOfHigh(Signed(a) * Signed(b));
  }

  lemma ModProduct(x: int, y: int, m: int)
    requires m > 0
    ensures (x % m * y) % m == (x * y) % m
  {
    assert x * y == x % m * y + m * (x / m * y);
    DropMultiple(x % m * y, x / m * y, m);
  }

  lemma DropMultiple(r: int, q: int, m: int)
    requires m > 0
    ensures (r + m * q) % m == r % m
  {
    var x := r + m * q;
    var d := x / m - r / m - q;
    assert m * d == r % m - x % m;
  }

  /** MUL and MULHSU: the halves of the product of a signed and an unsigned factor. */
  lemma MixedProduct(a: u32, b: u32)
    ensures Compute(Mul, a, b) + 0x1_0000_0000 * Signed(Compute(Mulhsu, a, b)) == Signed(a) * b
  {
    ModProduct(Signed(a), b, 0x1_0000_0000_0000_0000);
    ProductBounds(Signed(a), b, 0x8000_0000, 0x1_0000_0000);
    SignedOfHigh(Signed(a) * b);
    SameLow(a, b, Signed(a), Signed(b));
    SameLow(a, b, Signed(a), b);
  }

  /** The low word of a product does not depend on how the factors are read. */
  lemma SameLow(a: u32, b: u32, x: int, y: int)
    requires (x == a || x == a - 0x1_0000_0000) && (y == b || y == b - 0x1_0000_0000)
    ensures ToWord(x * y) == ToWord(a * b)
  {
    var i, j := if x == a then 0 else 1, if y == b then 0 else 1;
    var q := -(i * b) - j * x;
    assert x * y == a * b + 0x1_0000_0000 * q by {
      assert x * y == x * b - 0x1_0000_0000 * (j * x);
      assert x * b == a * b - 0x1_0000_0000 * (i * b);
    }
    DropMultiple(a * b, q, 0x1_0000_0000);
  }

  lemma UnsignedHalves(p: int)
    requires 0 <= p <= 0xFFFF_FFFF * 0xFFFF_FFFF
    ensures p % 0x1_0000_0000_0000_0000 == p
    ensures ToWord(p / 0x1_0000_0000) == p / 0x1_0000_0000
    ensures ToWord(p) + 0x1_0000_0000 * (p / 0x1_0000_0000) == p
  {
  }

  lemma UnsignedHigh(a: u32, b: u32, p: int)
    requires p == a * b && p % 0x1_0000_0000_0000_0000 == p && ToWord(p / 0x1_0000_0000) == p / 0x1_0000_0000
    ensures Compute(Mulhu, a, b) == p / 0x1_0000_0000
  {
  }

  lemma UnsignedBounds(a: u32, b: u32)
    ensures 0 <= a * b <= 0xFFFF_FFFF * 0xFFFF_FFFF
  {
    ProductBounds(a, b, 0xFFFF_FFFF, 0xFFFF_FFFF);
    assert 0 <= a * b;
  }

  /** MUL and MULHU: the two halves of the unsigned product. */
  lemma UnsignedProduct(a: u32, b: u32)
    ensures Compute(Mul, a, b) + 0x1_0000_0000 * Compute(Mulhu, a, b) == a * b
  {
    UnsignedBounds(a, b);
    SameLow(a, b, Signed(a), Signed(b));
    UnsignedHalves(a * b);
    UnsignedHigh(a, b, a * b);
  }

  lemma FactorBound(q: nat, n: nat, m: nat)
    requires n > 0 && q * n <= m
    ensures q <= m && (n > 1 ==> 2 * q <= m)
  {
    assert q <= q * n;
    if n > 1 { assert q * 2 <= q * n; }
  }

  lemma QuotientBound(m: nat, n: nat)
    requires n > 0
    ensures m / n <= m && (n > 1 ==> 2 * (m / n) <= m)
  {
    FactorBound(m / n, n, m);
  }

  lemma SignsOfProduct(q: int, n: int)
    ensures -q * n == -(q * n) && q * -n == -(q * n) && -q * -n == q * n
  {
  }

  lemma TruncRemBound(a: int, b: int)
    requires b != 0
    ensures Abs(TruncRem(a, b)) < Abs(b)
    ensures TruncRem(a, b) == 0 || (TruncRem(a, b) > 0) == (a > 0)
  {
    ModParts(Abs(a), Abs(b), Abs(a) % Abs(b));
  }

  lemma ModParts(m: nat, n: nat, r: nat)
    requires n > 0 && r == m % n
    ensures r < n && r <= m
  {
    if m < n { assert r == m; }
  }

  lemma TruncIdentity(a: int, b: int)
    requires b != 0
    ensures TruncDiv(a, b) * b + TruncRem(a, b) == a
  {
    var m, n := Abs(a), Abs(b);
    DivisionParts(m, n);
    SignsOfProduct(m / n, n);
    SignedCases(a, b, m / n, n, m % n);
  }

  lemma DivisionParts(m: nat, n: nat)
    requires n > 0
    ensures m == m / n * n + m % n && 0 <= m % n < n
  {
  }

  lemma SignedCases(a: int, b: int, q: int, n: int, r: int)
    requires b != 0 && n == Abs(b) && Abs(a) == q * n + r && 0 <= r < n
    requires -q * n == -(q * n) && q * -n == -(q * n) && -q * -n == q * n
    ensures (if (a >= 0) == (b > 0) then q else -q) * b + (if a >= 0 then r else -r) == a
  {
    if b > 0 {
      assert b == n;
    } else {
      assert b == -n;
    }
  }

  /** The quotient fits in a signed word, but for the one case the simulator tests for. */
  lemma QuotientFits(a: int, b: int)
    requires -0x8000_0000 <= a < 0x8000_0000 && b != 0
    requires !(a == -0x8000_0000 && b == -1)
    ensures -0x8000_0000 <= TruncDiv(a, b) < 0x8000_0000
  {
    QuotientBound(Abs(a), Abs(b));
  }

  lemma SignedToWord(v: int)
    requires -0x8000_0000 <= v < 0x8000_0000
    ensures Signed(ToWord(v)) == v
  {
  }

  /**
   * DIV and REM: the quotient rounds toward zero, the remainder is smaller than the divisor and has
   * the sign of the dividend; the two special cases are those of section 7.2 of the Unprivileged ISA.
   */
  lemma SignedDivision(a: u32, b: u32)
    ensures var q, r := Signed(Compute(Div, a, b)), Signed(Compute(Rem, a, b));
      if b == 0 then q == -1 && r == Signed(a)
      else if Signed(a) == -0x8000_0000 && Signed(b) == -1 then q == Signed(a) && r == 0
      else q * Signed(b) + r == Signed(a) && Abs(r) < Abs(Signed(b)) && (r == 0 || (r > 0) == (Signed(a) > 0))
  {
    var x, y := Signed(a), Signed(b);
    if b != 0 && !(x == -0x8000_0000 && y == -1) {
      TruncIdentity(x, y);
      TruncRemBound(x, y);
      QuotientFits(x, y);
      SignedToWord(TruncDiv(x, y));
      SignedToWord(TruncRem(x, y));
    }
  }

  /** DIVU and REMU. */
  lemma UnsignedDivision(a: u32, b: u32)
    ensures var q, r := Compute(Divu, a, b), Compute(Remu, a, b);
      if b == 0 then q == 0xFFFF_FFFF && r == a else q * b + r == a && r < b
  {
  }
}
