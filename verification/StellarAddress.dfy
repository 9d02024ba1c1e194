/** CRC16/XMODEM over a 16-bit register, and the two 32-bit implementations of it. */
module Crc16 {
  predicate Top(c: bv16) { c & 0x8000 != 0 }

  function Shl(c: bv16): bv16 { c << 1 }

  function Xor(a: bv16, b: bv16): bv16 { a ^ b }

  /** The generator polynomial of XMODEM. */
  function Poly(c: bv16): bv16 { Xor(c, 0x1021) }

  /** One shift of the register. */
  function BitStep(c: bv16): bv16 {
    if Top(c) then Poly(Shl(c)) else Shl(c)
  }

  function Steps(c: bv16, k: nat): bv16 {
    if k == 0 then c else BitStep(Steps(c, k - 1))
  }

  function High(b: bv8): bv16 { (b as bv16) << 8 }

  function Feed(c: bv16, b: bv8): bv16 {
    Xor(c, High(b))
  }

  function ByteStep(c: bv16, b: bv8): bv16 {
    Steps(Feed(c, b), 8)
  }

  function CrcFrom(c: bv16, bytes: seq<bv8>): bv16 {
    if bytes == [] then c else ByteStep(CrcFrom(c, bytes[..|bytes| - 1]), bytes[|bytes| - 1])
  }

  function Crc(bytes: seq<bv8>): bv16 {
    CrcFrom(0, bytes)
  }

  function LowHalf(c: bv16): bv8 {
    (c & 0xff) as bv8
  }

  function HighHalf(c: bv16): bv8 {
    (c >> 8) as bv8
  }

  predicate Odd(c: bv16) { c & 1 == 1 }

  lemma ShlEven(c: bv16) ensures !Odd(Shl(c)) { }

  lemma PolyOdd(x: bv16) ensures Odd(Poly(x)) == !Odd(x) { }

  lemma ShlInjective(a: bv16, b: bv16)
    requires Shl(a) == Shl(b) && Top(a) == Top(b)
    ensures a == b
  {
  }

  lemma PolyInjective(x: bv16, y: bv16)
    requires Poly(x) == Poly(y)
    ensures x == y
  {
  }

  lemma BitStepInjective(a: bv16, b: bv16)
    requires BitStep(a) == BitStep(b)
    ensures a == b
  {
    hide Top, Shl, Poly, Odd;
    ShlEven(a);
    ShlEven(b);
    PolyOdd(Shl(a));
    PolyOdd(Shl(b));
    if Top(a) && Top(b) { PolyInjective(Shl(a), Shl(b)); }
    ShlInjective(a, b);
  }

  lemma TopXor(a: bv16, b: bv16) ensures Top(Xor(a, b)) == (Top(a) != Top(b)) { }

  lemma ShlXor(a: bv16, b: bv16) ensures Shl(Xor(a, b)) == Xor(Shl(a), Shl(b)) { }

  lemma PolyLeft(x: bv16, y: bv16) ensures Xor(Poly(x), y) == Poly(Xor(x, y)) { }

  lemma PolyRight(x: bv16, y: bv16) ensures Xor(x, Poly(y)) == Poly(Xor(x, y)) { }

  lemma PolyTwice(x: bv16) ensures Poly(Poly(x)) == x { }

  lemma BitStepLinear(a: bv16, b: bv16)
    ensures BitStep(Xor(a, b)) == Xor(BitStep(a), BitStep(b))
  {
    hide Top, Shl, Poly, Xor;
    TopXor(a, b);
    ShlXor(a, b);
    PolyLeft(Shl(a), BitStep(b));
    PolyRight(Shl(a), Shl(b));
    PolyTwice(Xor(Shl(a), Shl(b)));
  }

  lemma {:induction false} StepsInjective(a: bv16, b: bv16, k: nat)
    requires Steps(a, k) == Steps(b, k)
    ensures a == b
  {
    hide BitStep;
    if k > 0 {
      BitStepInjective(Steps(a, k - 1), Steps(b, k - 1));
      StepsInjective(a, b, k - 1);
    }
  }

  lemma {:induction false} StepsLinear(a: bv16, b: bv16, k: nat)
    ensures Steps(Xor(a, b), k) == Xor(Steps(a, k), Steps(b, k))
  {
    hide BitStep, Xor;
    if k > 0 {
      StepsLinear(a, b, k - 1);
      BitStepLinear(Steps(a, k - 1), Steps(b, k - 1));
    }
  }

  /** For a fixed byte the register update is one-to-one ... */
  lemma ByteStepInjective(c: bv16, d: bv16, b: bv8)
    requires ByteStep(c, b) == ByteStep(d, b)
    ensures c == d
  {
    hide Steps, Feed, Xor;
    StepsInjective(Feed(c, b), Feed(d, b), 8);
    FeedInjective(c, d, b);
  }

  lemma FeedInjective(c: bv16, d: bv16, b: bv8)
    requires Feed(c, b) == Feed(d, b)
    ensures c == d
  {
  }

  function Eight(c: bv16): bv16 {
    BitStep(BitStep(BitStep(BitStep(BitStep(BitStep(BitStep(BitStep(c))))))))
  }

  lemma EightSteps(c: bv16)
    ensures Steps(c, 8) == Eight(c)
  {
    hide BitStep;
    var c1 := BitStep(c); var c2 := BitStep(c1); var c3 := BitStep(c2); var c4 := BitStep(c3);
    var c5 := BitStep(c4); var c6 := BitStep(c5); var c7 := BitStep(c6);
    assert Steps(c, 1) == c1;
    assert Steps(c, 2) == c2;
    assert Steps(c, 3) == c3;
    assert Steps(c, 4) == c4;
    assert Steps(c, 5) == c5;
    assert Steps(c, 6) == c6;
    assert Steps(c, 7) == c7;
  }

  /** A changed byte always disturbs the low half of the register. */
  lemma LowHalfDisturbed(d: bv8)
    requires Eight(High(d)) & 0xff == 0
    ensures d == 0
  {
  }

  /** A change confined to a low nibble never amounts to a change of bit 7 of the register alone. */
  lemma NibbleNotTopBit(d: bv8)
    requires d & 0xf0 == 0 && Eight(High(d)) & 0xff7f == 0
    ensures d == 0
  {
  }

  lemma FeedDifference(c: bv16, a: bv8, b: bv8)
    ensures Xor(Feed(c, a), Feed(c, b)) == High(a ^ b)
  {
  }

  lemma StepDifference(c: bv16, a: bv8, b: bv8)
    ensures Xor(ByteStep(c, a), ByteStep(c, b)) == Eight(High(a ^ b))
  {
    hide Steps, Feed, Eight, High, Xor;
    StepsLinear(Feed(c, a), Feed(c, b), 8);
    FeedDifference(c, a, b);
    EightSteps(High(a ^ b));
  }

  lemma SwappedFeeds(x: bv16, y: bv16, a: bv8, b: bv8)
    requires Feed(x, a) == Feed(y, b)
    ensures Xor(x, y) & 0xff == 0
  {
  }

  lemma SameByXor(a: bv8, b: bv8)
    requires a ^ b == 0
    ensures a == b
  {
  }

  /** ... and over two adjacent bytes the update is one-to-one in the bytes. */
  lemma TwoBytesInjective(c: bv16, a1: bv8, a2: bv8, b1: bv8, b2: bv8)
    requires ByteStep(ByteStep(c, a1), a2) == ByteStep(ByteStep(c, b1), b2)
    ensures a1 == b1 && a2 == b2
  {
    hide Steps, Feed, Eight, High, Xor;
    var x, y := ByteStep(c, a1), ByteStep(c, b1);
    StepsInjective(Feed(x, a2), Feed(y, b2), 8);
    SwappedFeeds(x, y, a2, b2);
    StepDifference(c, a1, b1);
    LowHalfDisturbed(a1 ^ b1);
    SameByXor(a1, b1);
    LastFeed(x, a2, b2);
  }

  lemma LastFeed(x: bv16, a: bv8, b: bv8)
    requires Feed(x, a) == Feed(x, b)
    ensures a == b
  {
  }

  lemma {:induction false} CrcAppend(c: bv16, a: seq<bv8>, b: seq<bv8>)
    ensures CrcFrom(c, a + b) == CrcFrom(CrcFrom(c, a), b)
    decreases b
  {
    hide ByteStep;
    if b == [] {
      assert a + b == a;
    } else {
      var ab := a + b;
      assert ab[..|ab| - 1] == a + b[..|b| - 1];
      CrcAppend(c, a, b[..|b| - 1]);
    }
  }

  lemma {:induction false} CrcInjective(c: bv16, d: bv16, bytes: seq<bv8>)
    requires CrcFrom(c, bytes) == CrcFrom(d, bytes)
    ensures c == d
    decreases bytes
  {
    hide ByteStep;
    if bytes != [] {
      var front := bytes[..|bytes| - 1];
      ByteStepInjective(CrcFrom(c, front), CrcFrom(d, front), bytes[|bytes| - 1]);
      CrcInjective(c, d, front);
    }
  }

  lemma CrcTwo(c: bv16, x: bv8, y: bv8)
    ensures CrcFrom(c, [x, y]) == ByteStep(ByteStep(c, x), y)
  {
    hide ByteStep;
    assert [x, y][..1] == [x] && [x][..0] == [];
    assert CrcFrom(c, [x]) == ByteStep(c, x);
  }

  /** Strings that differ in at most two adjacent bytes have different checksums unless they are equal. */
  lemma AdjacentChangeDetected(a: seq<bv8>, b: seq<bv8>, i: nat)
    requires |a| == |b| && i + 1 < |a|
    requires forall j | 0 <= j < |a| && j != i && j != i + 1 :: a[j] == b[j]
    requires Crc(a) == Crc(b)
    ensures a == b
  {
    hide ByteStep, CrcFrom;
    var pre, post := a[..i], a[i + 2..];
    assert a == pre + [a[i], a[i + 1]] + post;
    assert b == pre + [b[i], b[i + 1]] + post;
    CrcAppend(0, pre + [a[i], a[i + 1]], post);
    CrcAppend(0, pre + [b[i], b[i + 1]], post);
    CrcAppend(0, pre, [a[i], a[i + 1]]);
    CrcAppend(0, pre, [b[i], b[i + 1]]);
    CrcInjective(CrcFrom(0, pre + [a[i], a[i + 1]]), CrcFrom(0, pre + [b[i], b[i + 1]]), post);
    var c := CrcFrom(0, pre);
    CrcTwo(c, a[i], a[i + 1]);
    CrcTwo(c, b[i], b[i + 1]);
    TwoBytesInjective(c, a[i], a[i + 1], b[i], b[i + 1]);
  }

  /** A change in the low nibble of the last byte is never masked by a change of the top checksum bit. */
  lemma LastNibbleChangeDetected(a: seq<bv8>, b: seq<bv8>)
    requires |a| == |b| > 0 && a[..|a| - 1] == b[..|b| - 1]
    requires (a[|a| - 1] ^ b[|b| - 1]) & 0xf0 == 0 && Xor(Crc(a), Crc(b)) & 0xff7f == 0
    ensures a == b
  {
    hide ByteStep, Eight, High, Xor;
    var k := |a| - 1;
    StepDifference(CrcFrom(0, a[..k]), a[k], b[k]);
    NibbleNotTopBit(a[k] ^ b[k]);
    SameByXor(a[k], b[k]);
    assert a == a[..k] + [a[k]] && b == b[..k] + [b[k]];
  }

  // --- the implementations, on 32-bit numbers ---

  function Low16(x: bv32): bv32 {
    x & 0xffff
  }

  function Wide(c: bv16): bv32 {
    c as bv32
  }

  function XorWord(x: bv32, y: bv32): bv32 { x ^ y }

  function HighWord(b: bv8): bv32 { (b as bv32) << 8 }

  predicate TopWord(x: bv32) { x & 0x8000 != 0 }

  function ShlWord(x: bv32): bv32 { x << 1 }

  function PolyWord(x: bv32): bv32 { XorWord(x, 0x1021) }

  /** `crc ^ (byte << 8)` */
  function FeedWord(x: bv32, b: bv8): bv32 {
    XorWord(x, HighWord(b))
  }

  /** `(crc & 0x8000) !== 0 ? ((crc << 1) ^ 0x1021) & 0xffff : (crc << 1) & 0xffff` */
  function MaskedBitStep(x: bv32): bv32 {
    if TopWord(x) then Low16(PolyWord(ShlWord(x))) else Low16(ShlWord(x))
  }

  /** The same without the masks. */
  function UnmaskedBitStep(x: bv32): bv32 {
    if TopWord(x) then PolyWord(ShlWord(x)) else ShlWord(x)
  }

  lemma HighMatches(b: bv8) ensures HighWord(b) == Wide(High(b)) { }

  lemma XorMatches(c: bv16, d: bv16) ensures XorWord(Wide(c), Wide(d)) == Wide(Xor(c, d)) { }

  lemma XorMatchesLow(x: bv32, c: bv16, d: bv16)
    requires Low16(x) == Wide(c)
    ensures Low16(XorWord(x, Wide(d))) == Wide(Xor(c, d))
  {
  }

  lemma FeedMatchesLow(x: bv32, c: bv16, b: bv8)
    requires Low16(x) == Wide(c)
    ensures Low16(FeedWord(x, b)) == Wide(Feed(c, b))
  {
    hide Xor, XorWord, High, HighWord, Low16, Wide;
    HighMatches(b);
    XorMatchesLow(x, c, High(b));
  }

  lemma FeedMatches(c: bv16, b: bv8)
    ensures FeedWord(Wide(c), b) == Wide(Feed(c, b))
  {
    hide Xor, XorWord, High, HighWord, Wide;
    HighMatches(b);
    XorMatches(c, High(b));
  }

  lemma TopMatches(x: bv32, c: bv16)
    requires Low16(x) == Wide(c)
    ensures TopWord(x) == Top(c)
  {
  }

  lemma ShlLow(x: bv32) ensures Low16(ShlWord(x)) == Low16(ShlWord(Low16(x))) { }

  lemma ShlWide(c: bv16) ensures Low16(ShlWord(Wide(c))) == Wide(Shl(c)) { }

  lemma ShlMatches(x: bv32, c: bv16)
    requires Low16(x) == Wide(c)
    ensures Low16(ShlWord(x)) == Wide(Shl(c))
  {
    hide ShlWord, Shl, Low16, Wide;
    ShlLow(x);
    ShlWide(c);
  }

  lemma WidePolynomial() ensures Wide(0x1021) == 0x1021 { }

  lemma PolyMatches(x: bv32, c: bv16)
    requires Low16(x) == Wide(c)
    ensures Low16(PolyWord(x)) == Wide(Poly(c))
  {
    hide Xor, XorWord, Low16, Wide;
    WidePolynomial();
    XorMatchesLow(x, c, 0x1021);
  }

  lemma UnmaskedMatches(x: bv32, c: bv16)
    requires Low16(x) == Wide(c)
    ensures Low16(UnmaskedBitStep(x)) == Wide(BitStep(c))
  {
    hide Low16, Wide, TopWord, Top, Shl, ShlWord, Poly, PolyWord;
    TopMatches(x, c);
    ShlMatches(x, c);
    PolyMatches(ShlWord(x), Shl(c));
  }

  lemma MaskedMatches(c: bv16)
    ensures MaskedBitStep(Wide(c)) == Wide(BitStep(c))
  {
    hide Low16, Wide, TopWord, ShlWord, PolyWord, BitStep;
    Low16Wide(c);
    UnmaskedMatches(Wide(c), c);
  }

  lemma Low16Wide(c: bv16)
    ensures Low16(Wide(c)) == Wide(c)
  {
  }

  method Crc16Xmodem(bytes: seq<bv8>) returns (r: bv32)
    ensures r == Wide(Crc(bytes))
  {
    hide FeedWord, MaskedBitStep, BitStep, Feed, Low16, Wide;
    var crc: bv32 := 0;
    ZeroWide();
    for i := 0 to |bytes|
      invariant crc == Wide(Crc(bytes[..i]))
    {
      ghost var c := Crc(bytes[..i]);
      assert bytes[..i + 1][..i] == bytes[..i];
      Low16Wide(c);
      FeedMatches(c, bytes[i]);
      crc := FeedWord(crc, bytes[i]);
      for bit := 0 to 8
        invariant crc == Wide(Steps(Feed(c, bytes[i]), bit))
      {
        MaskedMatches(Steps(Feed(c, bytes[i]), bit));
        crc := MaskedBitStep(crc);
      }
    }
    assert bytes[..|bytes|] == bytes;
    Low16Wide(Crc(bytes));
    r := Low16(crc);
  }

  lemma ZeroWide()
    ensures Wide(0) == 0 && Low16(0) == 0
  {
  }

  /** The asset package's version masks only once, at the end. */
  method Crc16XModemUnmasked(data: seq<bv8>) returns (r: bv32)
    ensures r == Wide(Crc(data))
  {
    hide FeedWord, UnmaskedBitStep, BitStep, Feed, Low16, Wide;
    var crc: bv32 := 0;
    ZeroWide();
    for i := 0 to |data|
      invariant Low16(crc) == Wide(Crc(data[..i]))
    {
      ghost var c := Crc(data[..i]);
      assert data[..i + 1][..i] == data[..i];
      FeedMatchesLow(crc, c, data[i]);
      crc := FeedWord(crc, data[i]);
      for j := 0 to 8
        invariant Low16(crc) == Wide(Steps(Feed(c, data[i]), j))
      {
        UnmaskedMatches(crc, Steps(Feed(c, data[i]), j));
        crc := UnmaskedBitStep(crc);
      }
    }
    assert data[..|data|] == data;
    r := Low16(crc);
  }
}
