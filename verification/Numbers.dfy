// The numbers that machine words stand for, and what the word operations do to them.
module Numbers {

  /** The unsigned number, bit by bit. */
  function Num(b: bv32): (n: int)
    ensures 0 <= n
    decreases b
  {
    if b == 0 then 0 else 2 * Num(HalfOf(b)) + (if Odd(b) then 1 else 0)
  }

  /** The signed number. */
  function Signed(b: bv32): (n: int) { if Num(b) < 0x8000_0000 then Num(b) else Num(b) - 0x1_0000_0000 }

  function Modulo(n: int): int { n % 0x1_0000_0000 }

  function Pow2(n: nat): (p: nat)
    ensures p > 0
  {
    if n == 0 then 1 else 2 * Pow2(n - 1)
  }

  // ---------------------------------------------------------------------------------------------
  // Halves

  function HalfOf(b: bv32): bv32 { b >> 1 }
  function Twice(b: bv32): bv32 { b << 1 }
  function TwiceOne(b: bv32): bv32 { (b << 1) | 1 }
  predicate Odd(b: bv32) { b & 1 == 1 }
  predicate Small(b: bv32) { b < 0x8000_0000 }

  lemma TwiceParts(h: bv32)
    requires Small(h)
    ensures HalfOf(Twice(h)) == h && !Odd(Twice(h)) && (Twice(h) == 0 <==> h == 0)
  {
  }

  lemma TwiceOneParts(h: bv32)
    requires Small(h)
    ensures HalfOf(TwiceOne(h)) == h && Odd(TwiceOne(h)) && TwiceOne(h) != 0
  {
  }

  lemma NoNum()
    ensures HalfOf(0) == 0 && !Odd(0)
  {
  }

  lemma Halve(b: bv32)
    ensures Num(b) == 2 * Num(HalfOf(b)) + (if Odd(b) then 1 else 0)
  {
    NoNum();
  }

  lemma TwiceNum(h: bv32)
    requires Small(h)
    ensures Num(Twice(h)) == 2 * Num(h)
  {
    TwiceParts(h);
    Halve(Twice(h));
  }

  lemma TwiceOneNum(h: bv32)
    requires Small(h)
    ensures Num(TwiceOne(h)) == 2 * Num(h) + 1
  {
    TwiceOneParts(h);
    Halve(TwiceOne(h));
  }

  function AsInt(b: bv32): int { b as int }

  lemma TwiceAsInt(h: bv32)
    requires Small(h)
    ensures AsInt(Twice(h)) == 2 * AsInt(h)
  {
  }

  lemma TwiceOneAsInt(h: bv32)
    requires Small(h)
    ensures AsInt(TwiceOne(h)) == 2 * AsInt(h) + 1
  {
  }

  lemma ZeroAsInt()
    ensures AsInt(0) == 0
  {
  }

  lemma AsIntBound(b: bv32)
    ensures 0 <= AsInt(b) < 0x1_0000_0000
  {
  }

  lemma {:induction false} NumIsInt(b: bv32)
    ensures Num(b) == AsInt(b)
    decreases b
  {
    if b == 0 {
      ZeroAsInt();
    } else {
      NumIsInt(HalfOf(b));
      HalfSmall(b);
      if Odd(b) { OddParts(b); TwiceOneAsInt(HalfOf(b)); } else { EvenParts(b); TwiceAsInt(HalfOf(b)); }
    }
  }

  lemma NumBound(b: bv32)
    ensures 0 <= Num(b) < 0x1_0000_0000
  {
    NumIsInt(b);
    AsIntBound(b);
  }

  lemma EvenParts(b: bv32)
    requires !Odd(b)
    ensures b == Twice(HalfOf(b))
  {
  }

  lemma OddParts(b: bv32)
    requires Odd(b)
    ensures b == TwiceOne(HalfOf(b))
  {
  }

  lemma HalfSmall(b: bv32)
    ensures Small(HalfOf(b))
  {
  }

  function OfInt(n: nat): bv32
    requires n < 0x1_0000_0000
  {
    n as bv32
  }

  lemma AsIntBack(b: bv32)
    ensures 0 <= AsInt(b) < 0x1_0000_0000 && OfInt(AsInt(b)) == b
  {
  }

  lemma SameNum(a: bv32, b: bv32)
    requires Num(a) == Num(b)
    ensures a == b
  {
    NumIsInt(a);
    NumIsInt(b);
    AsIntBack(a);
    AsIntBack(b);
  }

  lemma ZeroNum()
    ensures Num(0) == 0
  {
  }

  function Number(b: bv32): (n: int)
    ensures 0 <= n < 0x1_0000_0000 && n == Num(b)
  {
    NumBound(b);
    Num(b)
  }

  // ---------------------------------------------------------------------------------------------
  // From numbers to words

  function OfNum(n: nat): bv32 {
    if n == 0 then 0 else if n % 2 == 0 then Twice(OfNum(n / 2)) else TwiceOne(OfNum(n / 2))
  }

  lemma SmallAsInt(b: bv32)
    requires AsInt(b) < 0x8000_0000
    ensures Small(b)
  {
  }

  lemma SmallNum(b: bv32)
    requires Num(b) < 0x8000_0000
    ensures Small(b)
  {
    NumIsInt(b);
    SmallAsInt(b);
  }

  lemma {:induction false} NumOfNum(n: nat)
    requires n < 0x1_0000_0000
    ensures Num(OfNum(n)) == n
    decreases n
  {
    if n == 0 {
      ZeroNum();
    } else {
      NumOfNum(n / 2);
      SmallNum(OfNum(n / 2));
      TwiceNum(OfNum(n / 2));
      TwiceOneNum(OfNum(n / 2));
    }
  }

  lemma ConvertedIs(n: nat, b: bv32)
    requires n < 0x1_0000_0000 && Num(b) == n
    ensures OfInt(n) == b
  {
    NumIsInt(b);
    AsIntBack(b);
  }

  /** The conversion of a number to a word and back. */
  lemma Converted(n: nat)
    requires n < 0x1_0000_0000
    ensures Num(OfInt(n)) == n
  {
    NumOfNum(n);
    ConvertedIs(n, OfNum(n));
  }

  // ---------------------------------------------------------------------------------------------
  // Sums

  function Plus(a: bv32, b: bv32): bv32 { a + b }
  function Minus(a: bv32, b: bv32): bv32 { a - b }

  lemma IncEven(b: bv32)
    requires !Odd(b)
    ensures Plus(b, 1) == TwiceOne(HalfOf(b))
  {
  }

  lemma IncOdd(b: bv32)
    requires Odd(b)
    ensures Plus(b, 1) == Twice(Plus(HalfOf(b), 1))
  {
  }

  lemma LastAsInt()
    ensures AsInt(0xFFFF_FFFF) == 0xFFFF_FFFF
  {
  }

  lemma LastNum()
    ensures Num(0xFFFF_FFFF) == 0xFFFF_FFFF
  {
    NumIsInt(0xFFFF_FFFF);
    LastAsInt();
  }

  lemma IncLast()
    ensures Plus(0xFFFF_FFFF, 1) == 0
  {
  }

  /** Counting up. */
  lemma {:induction false} IncNum(b: bv32)
    requires Num(b) < 0xFFFF_FFFF
    ensures Num(Plus(b, 1)) == Num(b) + 1
    decreases Num(b)
  {
    Halve(b);
    HalfSmall(b);
    if Odd(b) {
      IncOdd(b);
      IncNum(HalfOf(b));
      SmallNum(Plus(HalfOf(b), 1));
      TwiceNum(Plus(HalfOf(b), 1));
    } else {
      IncEven(b);
      TwiceOneNum(HalfOf(b));
    }
  }

  lemma IncWrapsLast(b: bv32)
    requires Num(b) == 0xFFFF_FFFF
    ensures Plus(b, 1) == 0
  {
    LastNum();
    SameNum(b, 0xFFFF_FFFF);
    IncLast();
  }

  lemma IncWraps(b: bv32)
    ensures Num(Plus(b, 1)) == Modulo(Num(b) + 1)
  {
    NumBound(b);
    if Num(b) < 0xFFFF_FFFF {
      IncNum(b);
    } else {
      IncWrapsLast(b);
      ZeroNum();
    }
  }

  lemma PlusOneLess(a: bv32, b: bv32)
    ensures Plus(a, b) == Plus(Plus(a, Minus(b, 1)), 1)
  {
    assert Plus(a, b - 1) == a + (b - 1);
    assert Plus(a + (b - 1), 1) == a + b;
    assert Minus(b, 1) == b - 1;
  }

  lemma MinusOne(b: bv32)
    ensures Plus(Minus(b, 1), 1) == b
  {
    assert Plus(b - 1, 1) == b;
    assert Minus(b, 1) == b - 1;
  }

  lemma DecNum(b: bv32)
    requires Num(b) > 0
    ensures Num(Minus(b, 1)) == Num(b) - 1
  {
    NumBound(b);
    NumBound(Minus(b, 1));
    MinusOne(b);
    IncWraps(Minus(b, 1));
  }

  lemma PlusZero(a: bv32, b: bv32)
    requires Num(b) == 0
    ensures Plus(a, b) == a
  {
    ZeroNum();
    SameNum(b, 0);
  }

  lemma PlusStep(a: bv32, b: bv32, s: bv32, t: bv32)
    requires s == Plus(a, Minus(b, 1)) && t == Plus(a, b)
    ensures Num(t) == Modulo(Num(s) + 1)
  {
    PlusOneLess(a, b);
    IncWraps(s);
  }

  lemma ModuloNext(n: int)
    ensures Modulo(Modulo(n) + 1) == Modulo(n + 1)
  {
  }

  /** Addition is addition modulo 2^32. */
  lemma {:induction false} PlusNum(a: bv32, b: bv32)
    ensures Num(Plus(a, b)) == Modulo(Num(a) + Num(b))
    decreases Num(b)
  {
    if Num(b) == 0 {
      PlusZero(a, b);
      NumBound(a);
    } else {
      DecNum(b);
      PlusNum(a, Minus(b, 1));
      PlusStep(a, b, Plus(a, Minus(b, 1)), Plus(a, b));
      ModuloNext(Num(a) + (Num(b) - 1));
    }
  }

  lemma MinusPlus(a: bv32, b: bv32)
    ensures Plus(Minus(a, b), b) == a
  {
    assert Plus(a - b, b) == a;
    assert Minus(a, b) == a - b;
  }

  lemma MinusNum(a: bv32, b: bv32)
    ensures Num(Minus(a, b)) == Modulo(Num(a) - Num(b))
  {
    NumBound(a);
    NumBound(Minus(a, b));
    MinusPlus(a, b);
    PlusNum(Minus(a, b), b);
    Difference(Num(Minus(a, b)), Num(b), Num(a));
  }

  lemma Difference(r: int, b: int, a: int)
    requires 0 <= r < 0x1_0000_0000 && Modulo(r + b) == a
    ensures r == Modulo(a - b)
  {
  }

  // ---------------------------------------------------------------------------------------------
  // Order

  predicate Less(a: bv32, b: bv32) { a < b }

  lemma EvenLess(x: bv32, y: bv32)
    requires Small(x) && Small(y)
    ensures Less(Twice(x), Twice(y)) == Less(x, y)
  {
    assert Less(x << 1, y << 1) == Less(x, y);
  }

  lemma OddLess(x: bv32, y: bv32)
    requires Small(x) && Small(y)
    ensures Less(TwiceOne(x), TwiceOne(y)) == Less(x, y)
  {
    assert Less((x << 1) | 1, (y << 1) | 1) == Less(x, y);
  }

  lemma OddEvenLess(x: bv32, y: bv32)
    requires Small(x) && Small(y)
    ensures Less(TwiceOne(x), Twice(y)) == Less(x, y)
  {
    assert Less((x << 1) | 1, y << 1) == Less(x, y);
  }

  lemma EvenOddLess(x: bv32, y: bv32)
    requires Small(x) && Small(y) && Less(x, y)
    ensures Less(Twice(x), TwiceOne(y))
  {
  }

  lemma EvenOddSame(x: bv32)
    requires Small(x)
    ensures Less(Twice(x), TwiceOne(x))
  {
  }

  lemma EvenToOdd(x: bv32, y: bv32)
    requires Small(x) && Small(y) && (Less(x, y) || x == y)
    ensures Less(Twice(x), TwiceOne(y))
  {
    if x == y { EvenOddSame(x); } else { EvenOddLess(x, y); }
  }

  /** Twice x, with the low bit given. */
  function Join(x: bv32, odd: bool): bv32 { if odd then TwiceOne(x) else Twice(x) }

  lemma JoinLess(x: bv32, p: bool, y: bv32, q: bool)
    requires Small(x) && Small(y) && (Less(x, y) || (x == y && !p && q))
    ensures Less(Join(x, p), Join(y, q))
  {
    if !p && q {
      EvenToOdd(x, y);
    } else if p && q {
      OddLess(x, y);
    } else if p {
      OddEvenLess(x, y);
    } else {
      EvenLess(x, y);
    }
  }

  lemma Joined(b: bv32)
    ensures b == Join(HalfOf(b), Odd(b))
  {
    if Odd(b) { OddParts(b); } else { EvenParts(b); }
  }

  lemma {:induction false} LessByNum(a: bv32, b: bv32)
    requires Num(a) < Num(b)
    ensures Less(a, b)
    decreases Num(b)
  {
    var x, y := HalfOf(a), HalfOf(b);
    Halve(a);
    Halve(b);
    HalfSmall(a);
    HalfSmall(b);
    if Num(x) < Num(y) { LessByNum(x, y); } else { SameNum(x, y); }
    HalvesLess(a, b, x, y);
  }

  lemma HalvesLess(a: bv32, b: bv32, x: bv32, y: bv32)
    requires x == HalfOf(a) && y == HalfOf(b) && Small(x) && Small(y)
    requires Less(x, y) || (x == y && !Odd(a) && Odd(b))
    ensures Less(a, b)
  {
    JoinLess(x, Odd(a), y, Odd(b));
    Joined(a);
    Joined(b);
  }

  lemma Asymmetric(a: bv32, b: bv32)
    requires Less(b, a)
    ensures !Less(a, b)
  {
  }

  lemma Irreflexive(a: bv32)
    ensures !Less(a, a)
  {
  }

  /** The order of words is that of their unsigned numbers. */
  lemma LessNum(a: bv32, b: bv32)
    ensures Less(a, b) <==> Num(a) < Num(b)
  {
    if Num(a) < Num(b) {
      LessByNum(a, b);
    } else if Num(a) == Num(b) {
      SameNum(a, b);
      Irreflexive(a);
    } else {
      LessByNum(b, a);
      Asymmetric(a, b);
    }
  }

  function FlipTop(a: bv32): bv32 { a ^ 0x8000_0000 }

  lemma FlipAdds(a: bv32)
    ensures FlipTop(a) == Plus(a, 0x8000_0000)
  {
  }

  lemma TopAsInt()
    ensures AsInt(0x8000_0000) == 0x8000_0000
  {
  }

  lemma TopNum()
    ensures Num(0x8000_0000) == 0x8000_0000
  {
    NumIsInt(0x8000_0000);
    TopAsInt();
  }

  lemma FlipModulo(a: bv32)
    ensures Num(FlipTop(a)) == Modulo(Num(a) + 0x8000_0000)
  {
    TopNum();
    FlipAdds(a);
    PlusNum(a, 0x8000_0000);
  }

  lemma SignedModulo(n: int)
    requires 0 <= n < 0x1_0000_0000
    ensures Modulo(n + 0x8000_0000) == (if n < 0x8000_0000 then n else n - 0x1_0000_0000) + 0x8000_0000
  {
  }

  lemma FlipNum(a: bv32)
    ensures Num(FlipTop(a)) == Signed(a) + 0x8000_0000
  {
    NumBound(a);
    FlipModulo(a);
    SignedModulo(Num(a));
  }

  /** With the top bit flipped the order is that of the signed numbers. */
  lemma SignedLessNum(a: bv32, b: bv32)
    ensures Less(FlipTop(a), FlipTop(b)) <==> Signed(a) < Signed(b)
  {
    FlipNum(a);
    FlipNum(b);
    LessNum(FlipTop(a), FlipTop(b));
  }

  // ---------------------------------------------------------------------------------------------
  // Bits

  /** Binary digit i of the unsigned number. */
  predicate Digit(b: bv32, i: nat) { Num(b) / Pow2(i) % 2 == 1 }

  /** The same, read off the word. */
  predicate Bit(b: bv32, i: nat) { if i == 0 then Odd(b) else Bit(HalfOf(b), i - 1) }

  lemma DivideTwice(n: nat, p: nat)
    requires p > 0
    ensures n / (2 * p) == n / 2 / p
  {
    var q := n / 2 / p;
    var r := n / 2 - q * p;
    assert n / 2 == q * p + r && 0 <= r < p;
    assert n == q * (2 * p) + (2 * r + n % 2);
    QuotientIs(n, 2 * p, q, 2 * r + n % 2);
  }

  lemma Multiple(x: int, d: int)
    requires d > 0
    ensures (x > 0 ==> x * d >= d) && (x < 0 ==> x * d <= -d)
  {
  }

  lemma QuotientIs(n: nat, d: nat, q: nat, r: nat)
    requires d > 0 && n == q * d + r && r < d
    ensures n / d == q
  {
    var x := n / d - q;
    assert x * d == r - n % d;
    Multiple(x, d);
  }

  lemma Parity(n: int, half: int, odd: bool)
    requires n == 2 * half + (if odd then 1 else 0)
    ensures n % 2 == (if odd then 1 else 0) && n / 2 == half
  {
  }

  lemma OddNum(b: bv32)
    ensures (Odd(b) <==> Num(b) % 2 == 1) && Num(b) / 2 == Num(HalfOf(b))
  {
    Halve(b);
    Parity(Num(b), Num(HalfOf(b)), Odd(b));
  }

  lemma HigherDigit(b: bv32, i: nat)
    requires i > 0
    ensures Digit(b, i) == Digit(HalfOf(b), i - 1)
  {
    OddNum(b);
    DivideTwice(Num(b), Pow2(i - 1));
  }

  lemma LowestDigit(b: bv32)
    ensures Digit(b, 0) == Odd(b)
  {
    OddNum(b);
  }

  lemma {:induction false} BitIsDigit(b: bv32, i: nat)
    ensures Bit(b, i) <==> Digit(b, i)
    decreases i
  {
    if i == 0 {
      LowestDigit(b);
    } else {
      BitIsDigit(HalfOf(b), i - 1);
      HigherDigit(b, i);
    }
  }

  function Meet(a: bv32, b: bv32): bv32 { a & b }
  function Either(a: bv32, b: bv32): bv32 { a | b }
  function Differ(a: bv32, b: bv32): bv32 { a ^ b }

  lemma HalfMeet(a: bv32, b: bv32)
    ensures HalfOf(Meet(a, b)) == Meet(HalfOf(a), HalfOf(b)) && Odd(Meet(a, b)) == (Odd(a) && Odd(b))
  {
  }

  lemma HalfEither(a: bv32, b: bv32)
    ensures HalfOf(Either(a, b)) == Either(HalfOf(a), HalfOf(b)) && Odd(Either(a, b)) == (Odd(a) || Odd(b))
  {
  }

  lemma HalfDiffer(a: bv32, b: bv32)
    ensures HalfOf(Differ(a, b)) == Differ(HalfOf(a), HalfOf(b)) && Odd(Differ(a, b)) == (Odd(a) != Odd(b))
  {
  }

  lemma HigherBit(b: bv32, i: nat)
    requires i > 0
    ensures Bit(b, i) == Bit(HalfOf(b), i - 1)
  {
  }

  // And, or and exclusive or, digit by digit.

  lemma MeetLow(a: bv32, b: bv32, m: bv32)
    requires m == Meet(a, b)
    ensures Odd(m) == (Odd(a) && Odd(b))
  {
    HalfMeet(a, b);
  }

  lemma MeetHigh(a: bv32, b: bv32, m: bv32)
    requires m == Meet(a, b)
    ensures HalfOf(m) == Meet(HalfOf(a), HalfOf(b))
  {
    HalfMeet(a, b);
  }

  lemma {:induction false} MeetBits(a: bv32, b: bv32, m: bv32, i: nat)
    requires m == Meet(a, b)
    ensures Bit(m, i) == (Bit(a, i) && Bit(b, i))
    decreases i
  {
    if i == 0 {
      MeetLow(a, b, m);
    } else {
      MeetHigh(a, b, m);
      MeetBits(HalfOf(a), HalfOf(b), HalfOf(m), i - 1);
      HigherBit(a, i);
      HigherBit(b, i);
      HigherBit(m, i);
    }
  }

  lemma MeetDigits(a: bv32, b: bv32, i: nat)
    ensures Digit(Meet(a, b), i) == (Digit(a, i) && Digit(b, i))
  {
    MeetBits(a, b, Meet(a, b), i);
    BitIsDigit(a, i);
    BitIsDigit(b, i);
    BitIsDigit(Meet(a, b), i);
  }

  lemma EitherLow(a: bv32, b: bv32, m: bv32)
    requires m == Either(a, b)
    ensures Odd(m) == (Odd(a) || Odd(b))
  {
    HalfEither(a, b);
  }

  lemma EitherHigh(a: bv32, b: bv32, m: bv32)
    requires m == Either(a, b)
    ensures HalfOf(m) == Either(HalfOf(a), HalfOf(b))
  {
    HalfEither(a, b);
  }

  lemma {:induction false} EitherBits(a: bv32, b: bv32, m: bv32, i: nat)
    requires m == Either(a, b)
    ensures Bit(m, i) == (Bit(a, i) || Bit(b, i))
    decreases i
  {
    if i == 0 {
      EitherLow(a, b, m);
    } else {
      EitherHigh(a, b, m);
      EitherBits(HalfOf(a), HalfOf(b), HalfOf(m), i - 1);
      HigherBit(a, i);
      HigherBit(b, i);
      HigherBit(m, i);
    }
  }

  lemma EitherDigits(a: bv32, b: bv32, i: nat)
    ensures Digit(Either(a, b), i) == (Digit(a, i) || Digit(b, i))
  {
    EitherBits(a, b, Either(a, b), i);
    BitIsDigit(a, i);
    BitIsDigit(b, i);
    BitIsDigit(Either(a, b), i);
  }

  /** The bits of a that b does not have. */
  function Without(a: bv32, b: bv32): bv32 { a & !b }

  lemma HalfWithout(a: bv32, b: bv32)
    ensures HalfOf(Without(a, b)) == Without(HalfOf(a), HalfOf(b)) && Odd(Without(a, b)) == (Odd(a) && !Odd(b))
  {
  }

  lemma WithoutLow(a: bv32, b: bv32, m: bv32)
    requires m == Without(a, b)
    ensures Odd(m) == (Odd(a) && !Odd(b))
  {
    HalfWithout(a, b);
  }

  lemma WithoutHigh(a: bv32, b: bv32, m: bv32)
    requires m == Without(a, b)
    ensures HalfOf(m) == Without(HalfOf(a), HalfOf(b))
  {
    HalfWithout(a, b);
  }

  lemma {:induction false} WithoutBits(a: bv32, b: bv32, m: bv32, i: nat)
    requires m == Without(a, b)
    ensures Bit(m, i) == (Bit(a, i) && !Bit(b, i))
    decreases i
  {
    if i == 0 {
      WithoutLow(a, b, m);
    } else {
      WithoutHigh(a, b, m);
      WithoutBits(HalfOf(a), HalfOf(b), HalfOf(m), i - 1);
      HigherBit(a, i);
      HigherBit(b, i);
      HigherBit(m, i);
    }
  }

  lemma WithoutDigits(a: bv32, b: bv32, i: nat)
    ensures Digit(Without(a, b), i) == (Digit(a, i) && !Digit(b, i))
  {
    WithoutBits(a, b, Without(a, b), i);
    BitIsDigit(a, i);
    BitIsDigit(b, i);
    BitIsDigit(Without(a, b), i);
  }

  lemma DifferLow(a: bv32, b: bv32, m: bv32)
    requires m == Differ(a, b)
    ensures Odd(m) == (Odd(a) != Odd(b))
  {
    HalfDiffer(a, b);
  }

  lemma DifferHigh(a: bv32, b: bv32, m: bv32)
    requires m == Differ(a, b)
    ensures HalfOf(m) == Differ(HalfOf(a), HalfOf(b))
  {
    HalfDiffer(a, b);
  }

  lemma {:induction false} DifferBits(a: bv32, b: bv32, m: bv32, i: nat)
    requires m == Differ(a, b)
    ensures Bit(m, i) == (Bit(a, i) != Bit(b, i))
    decreases i
  {
    if i == 0 {
      DifferLow(a, b, m);
    } else {
      DifferHigh(a, b, m);
      DifferBits(HalfOf(a), HalfOf(b), HalfOf(m), i - 1);
      HigherBit(a, i);
      HigherBit(b, i);
      HigherBit(m, i);
    }
  }

  lemma DifferDigits(a: bv32, b: bv32, i: nat)
    ensures Digit(Differ(a, b), i) == (Digit(a, i) != Digit(b, i))
  {
    DifferBits(a, b, Differ(a, b), i);
    BitIsDigit(a, i);
    BitIsDigit(b, i);
    BitIsDigit(Differ(a, b), i);
  }

  // ---------------------------------------------------------------------------------------------
  // Shifts

  predicate ShiftAmount(n: bv32) { n < 32 }
  function Left(a: bv32, n: bv32): bv32
    requires ShiftAmount(n)
  {
    a << n
  }

  function Right(a: bv32, n: bv32): bv32
    requires ShiftAmount(n)
  {
    a >> n
  }

  lemma OneLess(n: bv32)
    ensures Minus(n, 1) == n - 1
  {
  }

  lemma AmountLess(n: bv32)
    requires ShiftAmount(n) && n != 0
    ensures ShiftAmount(Minus(n, 1))
  {
  }

  lemma LeftByOne(a: bv32, n: bv32)
    requires ShiftAmount(n) && n != 0 && ShiftAmount(n - 1)
    ensures Left(a, n) == Twice(Left(a, n - 1))
  {
  }

  lemma LeftStep(a: bv32, n: bv32)
    requires ShiftAmount(n) && n != 0 && ShiftAmount(Minus(n, 1))
    ensures Left(a, n) == Twice(Left(a, Minus(n, 1)))
  {
    OneLess(n);
    LeftByOne(a, n);
  }

  lemma RightByOne(a: bv32, n: bv32)
    requires ShiftAmount(n) && n != 0 && ShiftAmount(n - 1)
    ensures Right(a, n) == HalfOf(Right(a, n - 1))
  {
  }

  lemma RightStep(a: bv32, n: bv32)
    requires ShiftAmount(n) && n != 0 && ShiftAmount(Minus(n, 1))
    ensures Right(a, n) == HalfOf(Right(a, Minus(n, 1)))
  {
    OneLess(n);
    RightByOne(a, n);
  }

  lemma NoShift(a: bv32)
    ensures ShiftAmount(0) && Left(a, 0) == a && Right(a, 0) == a
  {
  }

  function LowPart(b: bv32): bv32 { b & 0x7FFF_FFFF }

  lemma LowSmall(b: bv32)
    ensures Small(LowPart(b)) && Twice(b) == Twice(LowPart(b))
  {
  }

  lemma LowOrTop(b: bv32)
    ensures b == LowPart(b) || b == Plus(LowPart(b), 0x8000_0000)
  {
  }

  lemma LowNum(b: bv32)
    ensures Num(LowPart(b)) == Num(b) || Modulo(Num(LowPart(b)) + 0x8000_0000) == Num(b)
  {
    LowOrTop(b);
    TopNum();
    PlusNum(LowPart(b), 0x8000_0000);
  }

  lemma TwiceWraps(b: bv32)
    ensures Num(Twice(b)) == Modulo(2 * Num(b))
  {
    NumBound(b);
    NumBound(Twice(b));
    LowNum(b);
    TwiceLow(b, LowPart(b));
    DoubledModulo(Num(b), Num(LowPart(b)));
  }

  lemma DoubledModulo(n: nat, low: nat)
    requires n < 0x1_0000_0000 && 2 * low < 0x1_0000_0000
    requires low == n || Modulo(low + 0x8000_0000) == n
    ensures 2 * low == Modulo(2 * n)
  {
  }

  lemma TwiceLow(b: bv32, x: bv32)
    requires x == LowPart(b)
    ensures Num(Twice(b)) == 2 * Num(x)
  {
    LowSmall(b);
    TwiceNum(x);
  }

  lemma {:induction false} LeftNum(a: bv32, n: bv32)
    requires ShiftAmount(n)
    ensures Num(Left(a, n)) == Modulo(Num(a) * Pow2(Num(n)))
    decreases Num(n)
  {
    NumBound(a);
    if Num(n) == 0 {
      SameNum(n, 0);
      NoShift(a);
    } else {
      AmountStep(n);
      LeftNum(a, Minus(n, 1));
      LeftOne(a, n, Left(a, Minus(n, 1)));
      TwiceModulo(Num(a), Pow2(Num(n) - 1));
    }
  }

  lemma AmountStep(n: bv32)
    requires ShiftAmount(n) && Num(n) > 0
    ensures n != 0 && ShiftAmount(Minus(n, 1)) && Num(Minus(n, 1)) == Num(n) - 1
  {
    ZeroNum();
    AmountLess(n);
    DecNum(n);
  }

  lemma LeftOne(a: bv32, n: bv32, x: bv32)
    requires ShiftAmount(n) && n != 0 && ShiftAmount(Minus(n, 1)) && x == Left(a, Minus(n, 1))
    ensures Num(Left(a, n)) == Modulo(2 * Num(x))
  {
    LeftStep(a, n);
    TwiceWraps(x);
  }

  lemma TwiceModulo(a: int, p: int)
    ensures Modulo(2 * Modulo(a * p)) == Modulo(a * (2 * p))
  {
    DoubledAgain(a * p);
    assert a * (2 * p) == 2 * (a * p);
  }

  lemma DoubledAgain(x: int)
    ensures Modulo(2 * Modulo(x)) == Modulo(2 * x)
  {
    var q := x / 0x1_0000_0000;
    assert x == 0x1_0000_0000 * q + Modulo(x);
    MoreWords(2 * Modulo(x), 2 * q);
  }

  lemma MoreWords(n: int, k: int)
    ensures Modulo(n + 0x1_0000_0000 * k) == Modulo(n)
  {
  }

  lemma RightOne(a: bv32, n: bv32, x: bv32)
    requires ShiftAmount(n) && n != 0 && ShiftAmount(Minus(n, 1)) && x == Right(a, Minus(n, 1))
    ensures Num(Right(a, n)) == Num(x) / 2
  {
    RightStep(a, n);
    Halve(x);
  }

  lemma {:induction false} RightNum(a: bv32, n: bv32)
    requires ShiftAmount(n)
    ensures Num(Right(a, n)) == Num(a) / Pow2(Num(n))
    decreases Num(n)
  {
    if Num(n) == 0 {
      SameNum(n, 0);
      NoShift(a);
    } else {
      AmountStep(n);
      RightNum(a, Minus(n, 1));
      RightOne(a, n, Right(a, Minus(n, 1)));
      HalfQuotient(Num(a), Pow2(Num(n) - 1));
    }
  }

  lemma HalfQuotient(n: nat, p: nat)
    requires p > 0
    ensures n / p / 2 == n / (2 * p)
  {
    var q := n / p;
    assert n == q * p + n % p;
    HalfParts(q, p, n % p);
    QuotientIs(n, 2 * p, q / 2, q % 2 * p + n % p);
  }

  lemma HalfParts(q: nat, p: nat, r: nat)
    requires r < p
    ensures q * p + r == q / 2 * (2 * p) + (q % 2 * p + r) && 0 <= q % 2 * p + r < 2 * p
  {
    assert q * p == (2 * (q / 2) + q % 2) * p;
    assert q % 2 == 0 || q % 2 == 1;
  }

  // ---------------------------------------------------------------------------------------------
  // Arithmetic shift

  function Complement(a: bv32): bv32 { !a }

  lemma ComplementIs(a: bv32)
    ensures Complement(a) == Minus(0xFFFF_FFFF, a)
  {
  }

  lemma ComplementNum(a: bv32)
    ensures Num(Complement(a)) == 0xFFFF_FFFF - Num(a)
  {
    NumBound(a);
    ComplementModulo(a);
  }

  lemma ComplementModulo(a: bv32)
    ensures Num(Complement(a)) == Modulo(0xFFFF_FFFF - Num(a))
  {
    LastNum();
    ComplementIs(a);
    MinusNum(0xFFFF_FFFF, a);
  }

  lemma NotSmall(a: bv32)
    ensures Small(a) <==> Num(a) < 0x8000_0000
  {
    TopNum();
    LessNum(a, 0x8000_0000);
  }

  function Arithmetic(a: bv32, n: bv32): bv32
    requires ShiftAmount(n)
  {
    if Small(a) then Right(a, n) else Complement(Right(Complement(a), n))
  }

  /** The arithmetic shift right is division of the signed number, rounded down. */
  lemma ArithmeticNum(a: bv32, n: bv32)
    requires ShiftAmount(n)
    ensures Signed(Arithmetic(a, n)) == Signed(a) / Pow2(Num(n))
  {
    var p := Pow2(Num(n));
    NumBound(a);
    NotSmall(a);
    if Small(a) {
      RightNum(a, n);
      QuotientBelow(Num(a), p);
    } else {
      ComplementNum(a);
      RightNum(Complement(a), n);
      ComplementNum(Right(Complement(a), n));
      QuotientBelow(Num(Complement(a)), p);
      NegativeQuotient(Num(Complement(a)), p);
    }
  }

  lemma QuotientBelow(n: nat, p: nat)
    requires p > 0
    ensures 0 <= n / p <= n
  {
    var q := n / p;
    assert q * p <= n;
    AtLeast(q, p);
  }

  lemma AtLeast(q: nat, p: nat)
    requires p > 0
    ensures q * p >= q
  {
  }

  /** -1 - n, divided and rounded down. */
  lemma NegativeQuotient(n: nat, p: nat)
    requires p > 0
    ensures (-1 - n) / p == -1 - n / p
  {
    var q, r := -1 - n / p, p - 1 - n % p;
    assert n == (n / p) * p + n % p;
    assert -1 - n == q * p + r;
    var x := (-1 - n) / p - q;
    assert x * p == r - (-1 - n) % p;
    Multiple(x, p);
  }

  // ---------------------------------------------------------------------------------------------
  // Bytes

  /** k ones. */
  function LowMask(k: nat): bv32 {
    match k
    case 0 => 0x00 case 1 => 0x01 case 2 => 0x03 case 3 => 0x07 case 4 => 0x0F
    case 5 => 0x1F case 6 => 0x3F case 7 => 0x7F case _ => 0xFF
  }

  lemma MaskStep(k: nat)
    requires 0 < k <= 8
    ensures Odd(LowMask(k)) && HalfOf(LowMask(k)) == LowMask(k - 1)
  {
  }

  lemma NothingKept(x: bv32)
    ensures Meet(x, 0) == 0
  {
  }

  lemma MaskedStep(x: bv32, k: nat, y: bv32)
    requires 0 < k <= 8 && y == Meet(x, LowMask(k))
    ensures HalfOf(y) == Meet(HalfOf(x), LowMask(k - 1)) && Odd(y) == Odd(x)
  {
    MaskStep(k);
    MeetHigh(x, LowMask(k), y);
    MeetLow(x, LowMask(k), y);
  }

  lemma HalvedRemainder(n: nat, half: nat, low: nat, p: nat)
    requires n == 2 * half + low && low <= 1 && p > 0
    ensures 2 * (half % p) + low == n % (2 * p)
  {
    var q, r := half / p, half % p;
    assert half == q * p + r;
    assert n == q * (2 * p) + (2 * r + low);
    QuotientIs(n, 2 * p, q, 2 * r + low);
    assert n == n / (2 * p) * (2 * p) + n % (2 * p);
  }

  lemma {:induction false} MaskedNum(x: bv32, k: nat, y: bv32)
    requires k <= 8 && y == Meet(x, LowMask(k))
    ensures Num(y) == Num(x) % Pow2(k)
    decreases k
  {
    if k == 0 {
      NothingKept(x);
      ZeroNum();
    } else {
      MaskedStep(x, k, y);
      MaskedNum(HalfOf(x), k - 1, HalfOf(y));
      Halve(x);
      Halve(y);
      HalvedRemainder(Num(x), Num(HalfOf(x)), if Odd(x) then 1 else 0, Pow2(k - 1));
    }
  }

  lemma Powers()
    ensures Pow2(8) == 0x100 && Pow2(16) == 0x1_0000 && Pow2(24) == 0x100_0000
  {
    assert Pow2(4) == 16;
    assert Pow2(12) == 0x1000;
    assert Pow2(20) == 0x10_0000;
  }

  lemma LowByteIs(x: bv32)
    ensures x & 0xFF == Meet(x, LowMask(8))
  {
  }

  lemma LowByteNum(x: bv32)
    ensures Num(x & 0xFF) == Num(x) % 0x100
  {
    Powers();
    LowByteIs(x);
    MaskedNum(x, 8, Meet(x, LowMask(8)));
  }

  lemma LiteralNums()
    ensures Num(8) == 8 && Num(16) == 16 && Num(24) == 24
  {
    NumIsInt(8);
    NumIsInt(16);
    NumIsInt(24);
    LiteralInts();
  }

  lemma LiteralInts()
    ensures AsInt(8) == 8 && AsInt(16) == 16 && AsInt(24) == 24
  {
  }
}
