/** What the checksum is: the remainder of the message, as a polynomial over two elements, divided by the generator. */
module CrcDivision {
  import opened WordBits
  import opened Base32
  import opened Crc16

  /** The coefficient of `x^k` in the polynomial whose coefficients are listed from the highest down. */
  function Coef(p: seq<bool>, k: int): bool {
    0 <= k < |p| && p[|p| - 1 - k]
  }

  function Half(c: bv16): bv16 { c >> 1 }

  function And(a: bv16, b: bv16): bv16 { a & b }

  /** Bit `k` of the register. */
  function BitOf(c: bv16, k: int): bool
    decreases if k < 0 then 0 else k
  {
    if k < 0 then false else if k == 0 then Odd(c) else BitOf(Half(c), k - 1)
  }

  /** Addition of coefficients. */
  function Plus(a: bool, b: bool): bool {
    a != b
  }

  /**
   * `message * x^16 == quotient * (x^16 + x^12 + x^5 + 1) + remainder`, coefficient by coefficient.
   */
  ghost predicate Divides(message: seq<bool>, quotient: seq<bool>, remainder: bv16) {
    forall k: int :: Coef(message, k - 16) == Combined(quotient, remainder, k)
  }

  function Combined(quotient: seq<bool>, remainder: bv16, k: int): bool {
    Plus(Plus(Plus(Coef(quotient, k), Coef(quotient, k - 5)), Plus(Coef(quotient, k - 12), Coef(quotient, k - 16))),
         BitOf(remainder, k))
  }

  // --- the bits of the register ---

  lemma {:induction false} BitOfXor(a: bv16, b: bv16, k: int)
    ensures BitOf(Xor(a, b), k) == Plus(BitOf(a, k), BitOf(b, k))
    decreases if k < 0 then 0 else k
  {
    hide Odd, Half, Xor;
    if k == 0 {
      OddXor(a, b);
    } else if k > 0 {
      HalfXor(a, b);
      BitOfXor(Half(a), Half(b), k - 1);
    }
  }

  lemma OddXor(a: bv16, b: bv16)
    ensures Odd(Xor(a, b)) == Plus(Odd(a), Odd(b))
  {
  }

  lemma HalfXor(a: bv16, b: bv16)
    ensures Half(Xor(a, b)) == Xor(Half(a), Half(b))
  {
  }

  lemma {:induction false} BitOfAnd(a: bv16, m: bv16, k: int)
    ensures BitOf(And(a, m), k) == (BitOf(a, k) && BitOf(m, k))
    decreases if k < 0 then 0 else k
  {
    hide Odd, Half, And;
    if k == 0 {
      OddAnd(a, m);
    } else if k > 0 {
      HalfAnd(a, m);
      BitOfAnd(Half(a), Half(m), k - 1);
    }
  }

  lemma OddAnd(a: bv16, m: bv16)
    ensures Odd(And(a, m)) == (Odd(a) && Odd(m))
  {
  }

  lemma HalfAnd(a: bv16, m: bv16)
    ensures Half(And(a, m)) == And(Half(a), Half(m))
  {
  }

  lemma {:induction false} BitOfZero(k: int)
    ensures !BitOf(0, k)
    decreases if k < 0 then 0 else k
  {
    if k > 0 { BitOfZero(k - 1); }
  }

  /** Bit `k` in a word that has one bit set, at `n`. */
  lemma {:induction false} BitOfPower(c: bv16, n: nat, k: int)
    requires IsPower(c, n)
    ensures BitOf(c, k) <==> k == n
    decreases n
  {
    if n == 0 {
      if k > 0 { BitOfZero(k - 1); }
    } else if k > 0 {
      BitOfPower(Half(c), n - 1, k - 1);
    }
  }

  predicate IsPower(c: bv16, n: nat) {
    if n == 0 then c == 1 else !Odd(c) && IsPower(Half(c), n - 1)
  }

  lemma Powers()
    ensures IsPower(0x0001, 0) && IsPower(0x0020, 5) && IsPower(0x1000, 12) && IsPower(0x8000, 15)
  {
    assert IsPower(0x0002, 1);
    assert IsPower(0x0010, 4) by { assert IsPower(0x0004, 2); }
    assert IsPower(0x0100, 8) by { assert IsPower(0x0040, 6); }
    assert IsPower(0x1000, 12) by { assert IsPower(0x0400, 10); }
    assert IsPower(0x8000, 15) by { assert IsPower(0x4000, 14); }
  }

  /** The generator without its highest term is `x^12 + x^5 + 1`. */
  lemma GeneratorBits(k: int)
    ensures BitOf(0x1021, k) <==> k == 0 || k == 5 || k == 12
  {
    Powers();
    assert Xor(Xor(0x1000, 0x0020), 0x0001) == 0x1021;
    BitOfXor(Xor(0x1000, 0x0020), 0x0001, k);
    BitOfXor(0x1000, 0x0020, k);
    BitOfPower(0x1000, 12, k);
    BitOfPower(0x0020, 5, k);
    BitOfPower(0x0001, 0, k);
  }

  lemma TopMask(c: bv16)
    ensures And(c, 0x8000) == 0x8000 || And(c, 0x8000) == 0
    ensures Top(c) <==> And(c, 0x8000) == 0x8000
  {
  }

  lemma TopBit(c: bv16, k: int)
    ensures Top(c) == BitOf(c, 15)
    ensures k >= 16 ==> !BitOf(c, k)
  {
    Powers();
    TopMask(c);
    BitOfAnd(c, 0x8000, 15);
    BitOfPower(0x8000, 15, 15);
    BitOfZero(15);
    if k >= 16 { NoHighBit(c, k); }
  }

  lemma {:induction false} ShiftedOut(c: bv16, n: nat, k: int)
    requires n <= k && OutAfter(c, n)
    ensures !BitOf(c, k)
    decreases n
  {
    if n == 0 { BitOfZero(k); } else { ShiftedOut(Half(c), n - 1, k - 1); }
  }

  predicate OutAfter(c: bv16, n: nat) {
    if n == 0 then c == 0 else OutAfter(Half(c), n - 1)
  }

  lemma SixteenBits()
    ensures OutAfter(0xffff, 16)
  {
    assert OutAfter(0x000f, 4);
    assert OutAfter(0x00ff, 8);
    assert OutAfter(0x0fff, 12);
  }

  lemma AllBits(c: bv16)
    ensures And(c, 0xffff) == c
  {
  }

  lemma NoHighBit(c: bv16, k: int)
    requires k >= 16
    ensures !BitOf(c, k)
  {
    SixteenBits();
    ShiftedOut(0xffff, 16, k);
    AllBits(c);
    BitOfAnd(c, 0xffff, k);
  }

  /** Shifting moves every bit up and drops the top one. */
  lemma ShlBits(c: bv16, k: int)
    ensures BitOf(Shl(c), k) == (k <= 15 && BitOf(c, k - 1))
  {
    ShlEven(c);
    if k >= 16 {
      NoHighBit(Shl(c), k);
    } else if k > 0 {
      ShlBack(c);
      BitOfAnd(c, 0x7fff, k - 1);
      AllButTop(k - 1);
    }
  }

  lemma ShlBack(c: bv16)
    ensures Half(Shl(c)) == And(c, 0x7fff)
  {
  }

  lemma AllButTop(k: int)
    requires 0 <= k < 15
    ensures BitOf(0x7fff, k)
  {
    assert LowSet(0x0007, 3);
    assert LowSet(0x007f, 7);
    assert LowSet(0x07ff, 11);
    AllSet(0x7fff, 15, k);
  }

  lemma {:induction false} AllSet(c: bv16, n: nat, k: int)
    requires 0 <= k < n && LowSet(c, n)
    ensures BitOf(c, k)
    decreases n
  {
    if k > 0 { AllSet(Half(c), n - 1, k - 1); }
  }

  predicate LowSet(c: bv16, n: nat) {
    n == 0 || (Odd(c) && LowSet(Half(c), n - 1))
  }

  /** One shift multiplies by `x` and takes the generator away if the degree got too high. */
  lemma BitStepBits(c: bv16, k: int)
    ensures BitOf(BitStep(c), k) ==
              Plus(k <= 15 && BitOf(c, k - 1), Top(c) && (k == 0 || k == 5 || k == 12))
  {
    hide BitOf, Top, Shl, Xor;
    ShlBits(c, k);
    if Top(c) {
      BitOfXor(Shl(c), 0x1021, k);
      GeneratorBits(k);
    }
  }

  // --- dividing bit by bit ---

  function Carry(b: bool): bv16 {
    if b then 0x8000 else 0
  }

  /** The register after one more bit of the message. */
  function BitFeed(c: bv16, b: bool): bv16 {
    BitStep(Xor(c, Carry(b)))
  }

  function FeedBits(c: bv16, bits: seq<bool>): bv16 {
    if bits == [] then c else BitFeed(FeedBits(c, bits[..|bits| - 1]), bits[|bits| - 1])
  }

  lemma CarryBits(b: bool, k: int)
    ensures BitOf(Carry(b), k) == (b && k == 15)
  {
    if b {
      Powers();
      BitOfPower(0x8000, 15, k);
    } else {
      BitOfZero(k);
    }
  }

  lemma CoefAppend(p: seq<bool>, b: bool, k: int)
    ensures Coef(p + [b], k) == if k == 0 then b else Coef(p, k - 1)
  {
  }

  /** One more bit of the message: the top bit of the register is the next bit of the quotient. */
  lemma DividesAppend(message: seq<bool>, quotient: seq<bool>, c: bv16, b: bool)
    requires Divides(message, quotient, c)
    ensures Divides(message + [b], quotient + [Top(Xor(c, Carry(b)))], BitFeed(c, b))
  {
    hide BitOf, Top, Xor, Carry, BitStep, Coef;
    var s := Xor(c, Carry(b));
    var t := Top(s);
    forall k: int ensures Coef(message + [b], k - 16) == Combined(quotient + [t], BitStep(s), k) {
      assert Coef(message, k - 1 - 16) == Combined(quotient, c, k - 1);
      assert k - 1 - 16 == k - 16 - 1 && k - 1 - 5 == k - 5 - 1 && k - 1 - 12 == k - 12 - 1;
      CoefAppend(message, b, k - 16);
      CoefAppend(quotient, t, k);
      CoefAppend(quotient, t, k - 5);
      CoefAppend(quotient, t, k - 12);
      CoefAppend(quotient, t, k - 16);
      NoCoef(message);
      NoCoef(quotient);
      BitStepBits(s, k);
      BitOfXor(c, Carry(b), k - 1);
      CarryBits(b, k - 1);
      TopBit(s, 15);
      BitOfXor(c, Carry(b), 15);
      CarryBits(b, 15);
      TopBit(c, k - 1);
      BitOfNegative(c, k - 1);
      StepBalances(Coef(quotient, k - 1), Coef(quotient, k - 5 - 1), Coef(quotient, k - 12 - 1),
                   Coef(quotient, k - 16 - 1), BitOf(c, k - 1), BitOf(c, 15), t, b, k);
    }
  }

  lemma BitOfNegative(c: bv16, k: int)
    ensures k < 0 ==> !BitOf(c, k)
  {
  }

  lemma NoCoef(p: seq<bool>)
    ensures !Coef(p, -1)
  {
  }

  /** The bookkeeping of one coefficient. */
  lemma StepBalances(q0: bool, q5: bool, q12: bool, q16: bool, r: bool, top: bool, t: bool, b: bool, k: int)
    requires t == Plus(top, b) && (k == 16 ==> r == top) && (k > 16 ==> !r) && (k <= 0 ==> !r)
    requires (k == 0 ==> !q0) && (k == 5 ==> !q5) && (k == 12 ==> !q12) && (k == 16 ==> !q16)
    ensures var before := Plus(Plus(Plus(q0, q5), Plus(q12, q16)), r);
            var next := Plus(k <= 15 && Plus(r, b && k == 16), t && (k == 0 || k == 5 || k == 12));
            Plus(Plus(Plus(if k == 0 then t else q0, if k == 5 then t else q5),
                      Plus(if k == 12 then t else q12, if k == 16 then t else q16)), next)
              == if k == 16 then Plus(before, b) else before
  {
  }

  ghost function Quotient(message: seq<bool>): (q: seq<bool>)
    ensures |q| == |message|
  {
    if message == [] then []
    else
      var front := message[..|message| - 1];
      Quotient(front) + [Top(Xor(FeedBits(0, front), Carry(message[|message| - 1])))]
  }

  lemma {:induction false} FeedingDivides(message: seq<bool>)
    ensures Divides(message, Quotient(message), FeedBits(0, message))
    decreases |message|
  {
    if message == [] {
      forall k: int ensures Coef(message, k - 16) == Combined([], 0, k) { BitOfZero(k); }
    } else {
      hide Divides, BitFeed, Top, Xor, Carry;
      var front, last := message[..|message| - 1], message[|message| - 1];
      assert message == front + [last];
      FeedingDivides(front);
      DividesAppend(front, Quotient(front), FeedBits(0, front), last);
    }
  }

  // --- the byte loop feeds the same bits ---

  function Double(b: bv8): bv8 { b << 1 }

  predicate TopOf(b: bv8) { b & 0x80 != 0 }

  lemma FeedOne(c: bv16, b: bv8)
    ensures BitStep(Xor(c, High(b))) == Xor(BitFeed(c, TopOf(b)), High(Double(b)))
  {
    hide BitStep, Xor, High, Carry, TopOf, Double;
    TopApart(c, b);
    BitStepLinear(Xor(c, Carry(TopOf(b))), High(WithoutTop(b)));
    WithoutTopStep(b);
  }

  function WithoutTop(b: bv8): bv8 { b & 0x7f }

  lemma TopApart(c: bv16, b: bv8)
    ensures Xor(c, High(b)) == Xor(Xor(c, Carry(TopOf(b))), High(WithoutTop(b)))
  {
  }

  lemma WithoutTopStep(b: bv8)
    ensures BitStep(High(WithoutTop(b))) == High(Double(b))
  {
  }

  /** The four highest bits of a byte, the highest first. */
  function FourDigits(b: bv8): (r: seq<bool>)
    ensures |r| == 4
  {
    [TopOf(b), TopOf(Double(b)), TopOf(Double(Double(b))), TopOf(Double(Double(Double(b))))]
  }

  function TimesSixteen(b: bv8): bv8 { Double(Double(Double(Double(b)))) }

  lemma NothingLeft(b: bv8, c: bv16)
    ensures Xor(c, High(TimesSixteen(TimesSixteen(b)))) == c
  {
  }

  lemma NoBitsFed(c: bv16)
    ensures FeedBits(c, []) == c
  {
  }

  lemma FeedNext(c: bv16, d: seq<bool>, i: nat)
    requires i < |d|
    ensures FeedBits(c, d[..i + 1]) == BitFeed(FeedBits(c, d[..i]), d[i])
  {
    hide BitFeed;
    assert d[..i + 1][..i] == d[..i];
  }

  lemma FeedFour(c: bv16, d: seq<bool>)
    requires |d| == 4
    ensures FeedBits(c, d) == BitFeed(BitFeed(BitFeed(BitFeed(c, d[0]), d[1]), d[2]), d[3])
  {
    hide BitFeed, FeedBits;
    FeedNext(c, d, 0);
    FeedNext(c, d, 1);
    FeedNext(c, d, 2);
    FeedNext(c, d, 3);
    assert d[..4] == d && d[..0] == [];
    NoBitsFed(c);
  }

  /** Half a byte is worked off. */
  lemma FourFeed(c: bv16, b: bv8)
    ensures BitStep(BitStep(BitStep(BitStep(Xor(c, High(b)))))) ==
            Xor(FeedBits(c, FourDigits(b)), High(TimesSixteen(b)))
  {
    hide BitStep, BitFeed, Xor, High, Double, TopOf, FeedBits;
    var b1 := Double(b); var b2 := Double(b1); var b3 := Double(b2);
    var c1 := BitFeed(c, TopOf(b)); var c2 := BitFeed(c1, TopOf(b1)); var c3 := BitFeed(c2, TopOf(b2));
    FeedOne(c, b);
    FeedOne(c1, b1);
    FeedOne(c2, b2);
    FeedOne(c3, b3);
    FeedFour(c, FourDigits(b));
  }

  lemma ByteStepFeeds(c: bv16, b: bv8)
    ensures ByteStep(c, b) == FeedBits(FeedBits(c, FourDigits(b)), FourDigits(TimesSixteen(b)))
  {
    hide BitStep, Xor, High, FourDigits, FeedBits, TimesSixteen;
    EightSteps(Feed(c, b));
    FourFeed(c, b);
    FourFeed(FeedBits(c, FourDigits(b)), TimesSixteen(b));
    NothingLeft(b, FeedBits(FeedBits(c, FourDigits(b)), FourDigits(TimesSixteen(b))));
  }

  function Half32(x: bv32): bv32 { x >> 1 }

  function Sixteenth(x: bv32): bv32 { Half32(Half32(Half32(Half32(x)))) }

  /** The four lowest bits of a word, the highest first. */
  function LowFour(x: bv32): (r: seq<bool>)
    ensures |r| == 4
  {
    [WordFacts.Bit0(Half32(Half32(Half32(x)))), WordFacts.Bit0(Half32(Half32(x))), WordFacts.Bit0(Half32(x)),
     WordFacts.Bit0(x)]
  }

  lemma BitsNext(x: bv32, n: nat)
    ensures Bits(x, n + 1) == Bits(Half32(x), n) + [WordFacts.Bit0(x)]
  {
    hide WordFacts.Bit0;
  }

  lemma FourBits(x: bv32, n: nat)
    ensures Bits(x, n + 4) == Bits(Sixteenth(x), n) + LowFour(x)
  {
    hide Bits, Half32, WordFacts.Bit0;
    var x1 := Half32(x); var x2 := Half32(x1); var x3 := Half32(x2);
    BitsNext(x, n + 3);
    BitsNext(x1, n + 2);
    BitsNext(x2, n + 1);
    BitsNext(x3, n);
  }

  lemma HighDigits(b: bv8)
    ensures LowFour(Sixteenth(b as bv32)) == FourDigits(b)
  {
  }

  lemma LowDigits(b: bv8)
    ensures LowFour(b as bv32) == FourDigits(TimesSixteen(b))
  {
  }

  lemma DigitsAreBits(b: bv8)
    ensures Bits(b as bv32, 8) == FourDigits(b) + FourDigits(TimesSixteen(b))
  {
    hide Bits, LowFour, FourDigits, Sixteenth, TimesSixteen;
    var x := b as bv32;
    FourBits(x, 4);
    FourBits(Sixteenth(x), 0);
    NoBits(Sixteenth(Sixteenth(x)));
    HighDigits(b);
    LowDigits(b);
  }

  lemma {:induction false} FeedConcat(c: bv16, a: seq<bool>, b: seq<bool>)
    ensures FeedBits(c, a + b) == FeedBits(FeedBits(c, a), b)
    decreases |b|
  {
    hide BitFeed;
    if b == [] {
      assert a + b == a;
    } else {
      var k := |b| - 1;
      assert (a + b)[..|a + b| - 1] == a + b[..k];
      FeedConcat(c, a, b[..k]);
    }
  }

  lemma LastByteFed(c: bv16, b: bv8)
    ensures ByteStep(c, b) == FeedBits(c, Bits(b as bv32, 8))
  {
    hide ByteStep, FeedBits, Bits, FourDigits, TimesSixteen;
    ByteStepFeeds(c, b);
    DigitsAreBits(b);
    FeedConcat(c, FourDigits(b), FourDigits(TimesSixteen(b)));
  }

  lemma {:induction false} CrcFeeds(bytes: seq<bv8>)
    ensures Crc(bytes) == FeedBits(0, ByteBits(bytes))
    decreases |bytes|
  {
    hide ByteStep, FeedBits, Bits;
    if bytes == [] {
      NoBitsFed(0);
    } else {
      var front, last := bytes[..|bytes| - 1], bytes[|bytes| - 1];
      CrcFeeds(front);
      LastByteFed(Crc(front), last);
      FeedConcat(0, ByteBits(front), Bits(last as bv32, 8));
    }
  }

  // --- the remainder ---

  /** The checksum is the remainder of the message times `x^16`, divided by `x^16 + x^12 + x^5 + 1`. */
  lemma CrcIsRemainder(bytes: seq<bv8>) returns (quotient: seq<bool>)
    ensures Divides(ByteBits(bytes), quotient, Crc(bytes))
  {
    hide Divides, Crc, FeedBits;
    CrcFeeds(bytes);
    quotient := Quotient(ByteBits(bytes));
    FeedingDivides(ByteBits(bytes));
  }

  lemma {:induction false} QuotientsAgree(message: seq<bool>, p: seq<bool>, c: bv16, q: seq<bool>, d: bv16, top: nat,
                                          n: nat)
    requires Divides(message, p, c) && Divides(message, q, d) && |p| <= top && |q| <= top && n <= top
    ensures forall i | i >= top - n :: Coef(p, i) == Coef(q, i)
    decreases n
  {
    if n == 0 {
      assert forall i | i >= top :: !Coef(p, i) && !Coef(q, i);
    } else {
      QuotientsAgree(message, p, c, q, d, top, n - 1);
      hide BitOf, Coef;
      var i := top - n;
      var k := i + 16;
      assert Combined(p, c, k) == Combined(q, d, k);
      TopBit(c, k);
      TopBit(d, k);
      assert Coef(p, k - 16) == Coef(q, k - 16);
    }
  }

  /** There is one remainder only. */
  lemma RemainderUnique(message: seq<bool>, p: seq<bool>, c: bv16, q: seq<bool>, d: bv16)
    requires Divides(message, p, c) && Divides(message, q, d)
    ensures c == d
  {
    var top := if |p| < |q| then |q| else |p|;
    QuotientsAgree(message, p, c, q, d, top, top);
    assert forall i :: Coef(p, i) == Coef(q, i);
    hide BitOf, Coef;
    forall k: int ensures BitOf(c, k) == BitOf(d, k) {
      assert Combined(p, c, k) == Combined(q, d, k);
    }
    SixteenBits();
    AllBits(c);
    AllBits(d);
    SameWord16(c, d, 0xffff, 16);
  }

  lemma {:induction false} SameWord16(c: bv16, d: bv16, m: bv16, n: nat)
    requires OutAfter(m, n) && And(c, m) == c && And(d, m) == d && forall k: int :: BitOf(c, k) == BitOf(d, k)
    ensures c == d
    decreases n
  {
    hide And, Half, Odd;
    if n == 0 {
      NoMask(c);
      NoMask(d);
    } else {
      HalfAnd(c, m);
      HalfAnd(d, m);
      forall k: int ensures BitOf(Half(c), k) == BitOf(Half(d), k) {
        if k >= 0 { assert BitOf(c, k + 1) == BitOf(d, k + 1); }
      }
      SameWord16(Half(c), Half(d), Half(m), n - 1);
      assert BitOf(c, 0) == BitOf(d, 0);
      HalvesDecide(c, d);
    }
  }

  lemma NoMask(c: bv16)
    ensures And(c, 0) == 0
  {
  }

  lemma HalvesDecide(c: bv16, d: bv16)
    requires Half(c) == Half(d) && Odd(c) == Odd(d)
    ensures c == d
  {
  }

  // --- consequences ---

  function XorBytes(a: seq<bv8>, b: seq<bv8>): (r: seq<bv8>)
    requires |a| == |b|
    ensures |r| == |a|
  {
    seq(|a|, i requires 0 <= i < |a| => a[i] ^ b[i])
  }

  /** The checksum is linear, so that of a message of zeros is zero. */
  lemma {:induction false} CrcLinear(a: seq<bv8>, b: seq<bv8>)
    requires |a| == |b|
    ensures Crc(XorBytes(a, b)) == Xor(Crc(a), Crc(b))
    decreases |a|
  {
    hide Steps, Feed, Xor;
    if a == [] {
      XorZero();
    } else {
      var k := |a| - 1;
      CrcLinear(a[..k], b[..k]);
      assert XorBytes(a, b)[..k] == XorBytes(a[..k], b[..k]);
      FeedLinear(Crc(a[..k]), a[k], Crc(b[..k]), b[k]);
      StepsLinear(Feed(Crc(a[..k]), a[k]), Feed(Crc(b[..k]), b[k]), 8);
    }
  }

  lemma XorZero()
    ensures Xor(0, 0) == 0
  {
  }

  lemma FeedLinear(c: bv16, a: bv8, d: bv16, b: bv8)
    ensures Feed(Xor(c, d), a ^ b) == Xor(Feed(c, a), Feed(d, b))
  {
  }

  /** The checksum of the byte one is the generator without its highest term. */
  lemma CrcOfOne()
    ensures Crc([1]) == 0x1021
  {
    assert [1 as bv8][..0] == [];
    assert Crc([1]) == ByteStep(0, 1);
    EightSteps(Feed(0, 1));
    EightOfOne();
  }

  lemma EightOfOne()
    ensures Eight(Feed(0, 1)) == 0x1021
  {
  }

  /** A message followed by its checksum, high byte first, leaves no remainder. */
  lemma CrcChecksItself(bytes: seq<bv8>)
    ensures Crc(bytes + [HighHalf(Crc(bytes)), LowHalf(Crc(bytes))]) == 0
  {
    hide Crc, ByteStep, HighHalf, LowHalf, High;
    var c := Crc(bytes);
    CrcAppendsTwo(bytes, HighHalf(c), LowHalf(c));
    HighByteFed(c);
    LowByteFed(c);
  }

  lemma CrcAppendsTwo(bytes: seq<bv8>, x: bv8, y: bv8)
    ensures Crc(bytes + [x, y]) == ByteStep(ByteStep(Crc(bytes), x), y)
  {
    hide ByteStep, CrcFrom;
    CrcAppend(0, bytes, [x, y]);
    CrcTwo(Crc(bytes), x, y);
  }

  lemma HighByteFed(c: bv16)
    ensures ByteStep(c, HighHalf(c)) == High(LowHalf(c))
  {
    EightSteps(Feed(c, HighHalf(c)));
    EightOfLow(c);
  }

  lemma EightOfLow(c: bv16)
    ensures Eight(Feed(c, HighHalf(c))) == High(LowHalf(c))
  {
  }

  lemma LowByteFed(c: bv16)
    ensures ByteStep(High(LowHalf(c)), LowHalf(c)) == 0
  {
    EightSteps(Feed(High(LowHalf(c)), LowHalf(c)));
    EightOfNothing(c);
  }

  lemma EightOfNothing(c: bv16)
    ensures Eight(Feed(High(LowHalf(c)), LowHalf(c))) == 0
  {
  }

  /** And no other two bytes do. */
  lemma OnlyChecksumChecks(bytes: seq<bv8>, x: bv8, y: bv8)
    ensures Crc(bytes + [x, y]) == 0 <==> x == HighHalf(Crc(bytes)) && y == LowHalf(Crc(bytes))
  {
    hide Crc, ByteStep, HighHalf, LowHalf;
    CrcChecksItself(bytes);
    var c := Crc(bytes);
    CrcAppendsTwo(bytes, x, y);
    CrcAppendsTwo(bytes, HighHalf(c), LowHalf(c));
    if Crc(bytes + [x, y]) == 0 { TwoBytesInjective(c, x, y, HighHalf(c), LowHalf(c)); }
  }
}
