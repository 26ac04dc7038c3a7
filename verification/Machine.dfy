/** The operators of the machine on 32-bit words, as bit vectors, and the arithmetic of `Words` that stands for them. */
module Machine {
  import opened Words

  /**
   * The number a bit vector stands for. The operators have names, so that each proof sees no more of them than it
   * needs.
   */
  function Num(b: bv32): word {
    b as int
  }

  function Half(b: bv32): bv32 {
    b >> 1
  }

  predicate Odd(b: bv32) {
    b & 1 == 1
  }

  function Double(b: bv32): bv32 {
    b << 1
  }

  function Plus(a: bv32, b: bv32): bv32 {
    a + b
  }

  function Next(b: bv32): bv32 {
    b + 1
  }

  function NextIf(b: bv32, c: bool): bv32 {
    if c then Next(b) else b
  }

  function Other(a: bv32, b: bv32): bv32 {
    a ^ b
  }

  function One(b: bool): nat {
    if b then 1 else 0
  }

  function Wrap(x: nat): word {
    x % W
  }

  // ----- a word is its half and its lowest bit

  lemma ShiftSmall(b: bv32)
    requires b < 0x8000_0000
    ensures b as int < 0x8000_0000
    ensures (b << 1) as int == 2 * b as int && ((b << 1) | 1) as int == 2 * (b as int) + 1
  {
  }

  lemma ShiftBig(b: bv32)
    requires b >= 0x8000_0000
    ensures (b << 1) as int == 2 * (b as int) - W && ((b << 1) | 1) as int == 2 * (b as int) + 1 - W
  {
  }

  lemma NextOfDouble(b: bv32)
    ensures Next(Double(b)) == (b << 1) | 1
  {
  }

  lemma DoubleIs(b: bv32, odd: bool)
    ensures Num(NextIf(Double(b), odd)) == Wrap(2 * Num(b) + One(odd))
  {
    hide Num, Next, Double;
    if b < 0x8000_0000 {
      DoubleSmall(b);
    } else {
      DoubleBig(b);
    }
  }

  lemma DoubleSmall(b: bv32)
    requires b < 0x8000_0000
    ensures Num(b) < 0x8000_0000 && Num(Double(b)) == 2 * Num(b) && Num(Next(Double(b))) == 2 * Num(b) + 1
  {
    NextOfDouble(b);
    ShiftSmall(b);
    hide Next;
  }

  lemma DoubleBig(b: bv32)
    requires b >= 0x8000_0000
    ensures Num(Double(b)) == 2 * Num(b) - W && Num(Next(Double(b))) == 2 * Num(b) + 1 - W
  {
    NextOfDouble(b);
    ShiftBig(b);
    hide Next;
  }

  lemma HalfSmall(b: bv32)
    ensures Half(b) < 0x8000_0000
  {
  }

  lemma HalfSplits(b: bv32)
    ensures b == NextIf(Double(Half(b)), Odd(b))
  {
  }

  lemma HalfIs(b: bv32)
    ensures Num(b) == 2 * Num(Half(b)) + One(Odd(b)) && Num(Half(b)) == Num(b) / 2
    ensures 2 * Num(Half(b)) < W
  {
    hide Num, Half, Odd, Double, Next;
    HalfSmall(b);
    HalfSplits(b);
    DoubleSmall(Half(b));
  }

  lemma OnlyZero(b: bv32)
    ensures Num(b) == 0 <==> b == 0
  {
  }

  // ----- every word is the number of one bit vector

  function Bits(x: word): bv32 {
    x as bv32
  }

  lemma {:induction false} Onto(x: nat, n: nat) returns (b: bv32)
    requires x < Pow2(n) && x < W
    ensures Num(b) == x
  {
    hide Num, Double, NextIf;
    if n == 0 {
      b := 0;
      OnlyZero(b);
    } else {
      var c := Onto(x / 2, n - 1);
      b := NextIf(Double(c), x % 2 == 1);
      DoubleIs(c, x % 2 == 1);
    }
  }

  lemma BitsOfNum(b: bv32)
    ensures Bits(Num(b)) == b
  {
  }

  lemma NumOfBits(x: word)
    ensures Num(Bits(x)) == x
  {
    hide Num, Bits;
    Pow2Values();
    var b := Onto(x, 32);
    BitsOfNum(b);
  }

  // ----- exclusive or

  lemma XorHalves(a: bv32, b: bv32)
    ensures Half(Other(a, b)) == Other(Half(a), Half(b))
    ensures Odd(Other(a, b)) <==> Odd(a) != Odd(b)
    ensures Other(0, 0) == 0
  {
  }

  lemma XorStep(x: nat, a: bool, y: nat, b: bool, n: nat)
    ensures XorBits(2 * x + One(a), 2 * y + One(b), n + 1) == One(a != b) + 2 * XorBits(x, y, n)
  {
  }

  lemma XorNothing()
    ensures XorBits(0, 0, 0) == 0
  {
  }

  lemma {:induction false} XorIsBits(a: bv32, b: bv32, n: nat)
    requires Num(a) < Pow2(n) && Num(b) < Pow2(n)
    ensures XorBits(Num(a), Num(b), n) == Num(Other(a, b))
    decreases n
  {
    hide Num, Half, Odd, Other, XorBits;
    XorHalves(a, b);
    if n > 0 {
      HalfIs(a);
      HalfIs(b);
      HalfIs(Other(a, b));
      XorIsBits(Half(a), Half(b), n - 1);
      XorStep(Num(Half(a)), Odd(a), Num(Half(b)), Odd(b), n - 1);
    } else {
      OnlyZero(a);
      OnlyZero(b);
      OnlyZero(Other(a, b));
      XorNothing();
    }
  }

  lemma XorIs(a: bv32, b: bv32)
    ensures Xor(Num(a), Num(b)) == Num(Other(a, b))
  {
    hide Num, Other;
    Pow2Values();
    XorIsBits(a, b, 32);
  }

  lemma XorOf(a: bv32, b: bv32, c: bv32)
    ensures c == a ^ b ==> Xor(Num(a), Num(b)) == Num(c)
  {
    OtherOf(a, b, c);
    hide Num, Other, Xor;
    XorIs(a, b);
  }

  lemma OtherOf(a: bv32, b: bv32, c: bv32)
    ensures c == a ^ b ==> c == Other(a, b)
  {
  }

  // ----- addition and subtraction

  lemma Commutes(a: bv32, b: bv32)
    ensures Plus(a, b) == Plus(b, a)
  {
  }

  lemma Associates(a: bv32, b: bv32, c: bv32)
    ensures Plus(Plus(a, b), c) == Plus(a, Plus(b, c))
  {
    assert Plus(Plus(a, b), c) == Plus(a + b, c) == a + b + c;
    assert Plus(a, Plus(b, c)) == Plus(a, b + c) == a + (b + c);
  }

  lemma NextOfPlus(a: bv32, b: bv32)
    ensures Plus(Next(a), b) == Next(Plus(a, b))
  {
    assert Plus(Next(a), b) == Plus(a + 1, b) == a + 1 + b;
    assert Next(Plus(a, b)) == Next(a + b) == a + b + 1;
  }

  lemma DoubleIsPlus(b: bv32)
    ensures Double(b) == Plus(b, b)
  {
  }

  lemma DoubleOfNext(b: bv32)
    ensures Next(Next(Double(b))) == Double(Next(b))
  {
  }

  lemma DoubleOfPlus(a: bv32, b: bv32)
    ensures Plus(Double(a), Double(b)) == Double(Plus(a, b))
  {
    hide Plus, Double;
    DoubleIsPlus(a);
    DoubleIsPlus(b);
    DoubleIsPlus(Plus(a, b));
    Associates(a, a, Plus(b, b));
    Associates(a, b, b);
    Commutes(a, b);
    Associates(b, a, b);
    Associates(a, b, Plus(a, b));
  }

  /** Adding the lowest bits, and the carry to the rest. */
  lemma Carry(a: bv32, x: bool, b: bv32, y: bool, c: bool)
    ensures var s := One(x) + One(y) + One(c);
            NextIf(Plus(NextIf(Double(a), x), NextIf(Double(b), y)), c)
            == NextIf(Double(NextIf(Plus(a, b), s > 1)), s % 2 == 1)
  {
    hide Plus, Next, Double;
    DoubleOfPlus(a, b);
    NextOfPlus(Double(a), Double(b));
    NextOfPlus(Double(b), Double(a));
    NextOfPlus(Double(a), Next(Double(b)));
    Commutes(Double(a), Double(b));
    Commutes(Double(a), Next(Double(b)));
    DoubleOfNext(Plus(a, b));
  }

  lemma NothingPlus(c: bool)
    ensures Num(NextIf(Plus(0, 0), c)) == Wrap(0 + 0 + One(c)) && Num(0) == 0
  {
  }

  /** The sum of two numbers by their halves. */
  lemma HalvesAdd(x: nat, a: bool, y: nat, b: bool, c: bool, r: nat)
    requires 2 * x < W && 2 * y < W
    requires r == Wrap(x + y + One(One(a) + One(b) + One(c) > 1))
    ensures Wrap(2 * r + One((One(a) + One(b) + One(c)) % 2 == 1))
            == Wrap(2 * x + One(a) + (2 * y + One(b)) + One(c))
  {
  }

  lemma PlusStep(a: bv32, b: bv32, c: bool, s: nat, r: bv32)
    requires s == One(Odd(a)) + One(Odd(b)) + One(c) && r == NextIf(Plus(Half(a), Half(b)), s > 1)
    requires Num(r) == Wrap(Num(Half(a)) + Num(Half(b)) + One(s > 1))
    ensures Num(NextIf(Plus(a, b), c)) == Wrap(Num(a) + Num(b) + One(c))
  {
    hide Num, Half, Odd, Double, Plus, Next, NextIf, One, Wrap;
    HalfIs(a);
    HalfIs(b);
    HalfSplits(a);
    HalfSplits(b);
    Carry(Half(a), Odd(a), Half(b), Odd(b), c);
    DoubleIs(r, s % 2 == 1);
    HalvesAdd(Num(Half(a)), Odd(a), Num(Half(b)), Odd(b), c, Num(r));
  }

  lemma {:induction false} PlusIsBits(a: bv32, b: bv32, c: bool, n: nat)
    requires Num(a) < Pow2(n) && Num(b) < Pow2(n)
    ensures Num(NextIf(Plus(a, b), c)) == Wrap(Num(a) + Num(b) + One(c))
    decreases n
  {
    hide Num, Half, Odd, Plus, NextIf, One, Wrap;
    if n > 0 {
      var s := One(Odd(a)) + One(Odd(b)) + One(c);
      HalfIs(a);
      HalfIs(b);
      PlusIsBits(Half(a), Half(b), s > 1, n - 1);
      PlusStep(a, b, c, s, NextIf(Plus(Half(a), Half(b)), s > 1));
    } else {
      OnlyZero(a);
      OnlyZero(b);
      NothingPlus(c);
    }
  }

  lemma AddIs(a: bv32, b: bv32)
    ensures Add(Num(a), Num(b)) == Num(Plus(a, b))
  {
    hide Num, Plus;
    Pow2Values();
    PlusIsBits(a, b, false, 32);
    assert NextIf(Plus(a, b), false) == Plus(a, b);
  }

  function Minus(a: bv32, b: bv32): bv32 {
    a - b
  }

  lemma MinusPlus(a: bv32, b: bv32)
    ensures Plus(Minus(a, b), b) == a
  {
    assert Plus(Minus(a, b), b) == Plus(a - b, b) == a - b + b;
  }

  lemma SubIs(a: bv32, b: bv32)
    ensures Sub(Num(a), Num(b)) == Num(Minus(a, b))
  {
    hide Num, Plus, Minus;
    MinusPlus(a, b);
    AddIs(Minus(a, b), b);
  }

  // ----- shifts

  function Halves(b: bv32, k: nat): bv32
    decreases k
  {
    if k == 0 then b else Halves(Half(b), k - 1)
  }

  function Doubles(b: bv32, k: nat): bv32
    decreases k
  {
    if k == 0 then b else Doubles(Double(b), k - 1)
  }

  lemma {:induction false} HalvesAre(b: bv32, k: nat)
    ensures Num(Halves(b, k)) == ShiftRight(Num(b), k)
    decreases k
  {
    hide Num, Half;
    if k > 0 {
      HalfIs(b);
      HalvesAre(Half(b), k - 1);
    }
  }

  lemma {:induction false} DoublesAre(b: bv32, k: nat)
    ensures Num(Doubles(b, k)) == ShiftLeft(Num(b), k)
    decreases k
  {
    hide Num, Double;
    if k > 0 {
      DoubleIs(b, false);
      DoublesAre(Double(b), k - 1);
    }
  }

  lemma ShiftStep(x: word, k: nat)
    ensures ShiftLeft(x, k + 1) == ShiftLeft(x * 2 % W, k) && ShiftRight(x, k + 1) == ShiftRight(x / 2, k)
    ensures ShiftLeft(x, 0) == ShiftRight(x, 0) == x
  {
  }

  lemma FourTimes(x: nat)
    ensures x * 2 % W * 2 % W == x * 4 % W
  {
  }

  lemma SixteenTimes(x: nat)
    ensures x * 4 % W * 4 % W == x * 16 % W
  {
  }

  lemma LeftBy4(x: word)
    ensures ShiftLeft(x, 4) == x * 16 % W
  {
    hide ShiftLeft, ShiftRight;
    var y := x * 4 % W;
    FourTimes(x);
    FourTimes(y);
    SixteenTimes(x);
    ShiftStep(x, 3);
    ShiftStep(x * 2 % W, 2);
    ShiftStep(y, 1);
    ShiftStep(y * 2 % W, 0);
    ShiftStep(y * 4 % W, 0);
  }

  lemma RightBy5(x: word)
    ensures ShiftRight(x, 5) == x / 32
  {
    hide ShiftLeft, ShiftRight;
    var y := x / 2;
    ShiftStep(x, 4);
    ShiftStep(y, 3);
    ShiftStep(y / 2, 2);
    ShiftStep(y / 2 / 2, 1);
    ShiftStep(y / 2 / 2 / 2, 0);
    ShiftStep(y / 2 / 2 / 2 / 2, 0);
  }

  lemma RightBy11(x: word)
    ensures ShiftRight(x, 11) == x / 2048
  {
    hide ShiftLeft, ShiftRight;
    RightBy6(x);
    RightBy5(x / 64);
  }

  lemma RightBy6(x: word)
    ensures ShiftRight(x, 11) == ShiftRight(x / 64, 5)
  {
    hide ShiftLeft, ShiftRight;
    RightBy3(x, 8);
    RightBy3(x / 8, 5);
  }

  lemma RightBy3(x: word, k: nat)
    ensures ShiftRight(x, k + 3) == ShiftRight(x / 8, k)
  {
    hide ShiftLeft, ShiftRight;
    ShiftStep(x, k + 2);
    ShiftStep(x / 2, k + 1);
    ShiftStep(x / 4, k);
  }

  /** The two lowest bits of a word. */
  lemma HalvedTwice(b: bv32)
    ensures Num(b) % 4 == 2 * One(Odd(Half(b))) + One(Odd(b))
  {
    hide Num, Half, Odd;
    HalfIs(b);
    HalfIs(Half(b));
  }
}
