/** Word facts that bit-blasting settles, kept apart from sequences and integers. */
module WordFacts {
  lemma PeelAgreement(x: bv32, y: bv32, m: bv32)
    requires x & m == y & m && m & 1 == 1
    ensures (x >> 1) & (m >> 1) == (y >> 1) & (m >> 1) && x & 1 == y & 1
  {
  }

  lemma PeelMasked(x: bv32, m: bv32)
    ensures (x & m) >> 1 == (x >> 1) & (m >> 1)
  {
  }

  lemma MaskTwice(x: bv32, m: bv32)
    ensures (x & m) & m == x & m
  {
  }

  lemma ZeroByParts(x: bv32)
    requires x >> 1 == 0 && x & 1 != 1
    ensures x == 0
  {
  }

  /** Shifting out, one place at a time, the five bits shifted in. */
  lemma FiveShifts(x: bv32, v: bv32)
    requires v < 32
    ensures var y := (x << 5) | v;
            && y & 1 == v & 1
            && (y >> 1) & 1 == (v >> 1) & 1
            && (y >> 1 >> 1) & 1 == (v >> 1 >> 1) & 1
            && (y >> 1 >> 1 >> 1) & 1 == (v >> 1 >> 1 >> 1) & 1
            && (y >> 1 >> 1 >> 1 >> 1) & 1 == (v >> 1 >> 1 >> 1 >> 1) & 1
            && (y >> 1 >> 1 >> 1 >> 1 >> 1) & 0xff == x & 0xff
  {
  }

  predicate Bit0(x: bv32) { x & 1 == 1 }

  lemma FiveBitsDecide(v: bv32, w: bv32)
    requires v < 32 && w < 32
    requires Bit0(v) == Bit0(w) && Bit0(v >> 1) == Bit0(w >> 1) && Bit0(v >> 1 >> 1) == Bit0(w >> 1 >> 1)
    requires Bit0(v >> 1 >> 1 >> 1) == Bit0(w >> 1 >> 1 >> 1)
    requires Bit0(v >> 1 >> 1 >> 1 >> 1) == Bit0(w >> 1 >> 1 >> 1 >> 1)
    ensures v == w
  {
  }

  lemma TwoNibbles(x: bv32, y: bv32)
    requires x & 0xf == y & 0xf && (x >> 1 >> 1 >> 1 >> 1) & 0xf == (y >> 1 >> 1 >> 1 >> 1) & 0xf
    ensures x & 0xff == y & 0xff
  {
  }
}

/** Bit strings of machine words, most significant bit first. */
module WordBits {
  import opened WordFacts

  /** JavaScript's `x >>> c` for small `c`, one place at a time. */
  function ShiftRight(x: bv32, c: nat): bv32
    decreases c
  {
    if c == 0 then x else ShiftRight(x >> 1, c - 1)
  }

  /** JavaScript's `x << c` for small `c`, one place at a time. */
  function ShiftLeft(x: bv32, c: nat): bv32
    decreases c
  {
    if c == 0 then x else ShiftLeft(x << 1, c - 1)
  }

  /** The low `n` bits of `x`. */
  function Bits(x: bv32, n: nat): (r: seq<bool>)
    ensures |r| == n
    decreases n
  {
    if n == 0 then [] else Bits(x >> 1, n - 1) + [Bit0(x)]
  }

  function Zeros(n: nat): seq<bool> {
    seq(n, _ => false)
  }

  /** `m` has its low `n` bits set. */
  predicate Covers(m: bv32, n: nat)
    decreases n
  {
    n == 0 || (m & 1 == 1 && Covers(m >> 1, n - 1))
  }

  /** `m` has no bit set above its low `n`. */
  predicate Within(m: bv32, n: nat) {
    ShiftRight(m, n) == 0
  }

  lemma CoversByte(n: nat)
    requires n <= 8
    ensures Covers(0xff, n)
  {
    assert Covers(0x3, 2);
    assert Covers(0x7, 3);
    assert Covers(0xf, 4);
    assert Covers(0x1f, 5);
    assert Covers(0x3f, 6);
    assert Covers(0x7f, 7);
    assert Covers(0xff, 8);
    CoversLess(0xff, n, 8);
  }

  lemma {:induction false} CoversLess(m: bv32, k: nat, n: nat)
    requires k <= n && Covers(m, n)
    ensures Covers(m, k)
    decreases n
  {
    if k > 0 { CoversLess(m >> 1, k - 1, n - 1); }
  }

  lemma {:induction false} SameLowBits(x: bv32, y: bv32, m: bv32, n: nat)
    requires Covers(m, n) && x & m == y & m
    ensures Bits(x, n) == Bits(y, n)
    decreases n
  {
    if n > 0 {
      PeelAgreement(x, y, m);
      SameLowBits(x >> 1, y >> 1, m >> 1, n - 1);
    }
  }

  lemma LowAgree(x: bv32, y: bv32, n: nat)
    requires n <= 8 && x & 0xff == y & 0xff
    ensures Bits(x, n) == Bits(y, n)
  {
    CoversByte(n);
    SameLowBits(x, y, 0xff, n);
  }

  lemma {:induction false} MaskedWithin(x: bv32, m: bv32, n: nat)
    requires Within(m, n)
    ensures Within(x & m, n)
    decreases n
  {
    if n == 0 {
      MaskTwice(x, m);
    } else {
      PeelMasked(x, m);
      MaskedWithin(x >> 1, m >> 1, n - 1);
    }
  }

  lemma MaskedBy(x: bv32, m: bv32, n: nat)
    requires Covers(m, n) && Within(m, n)
    ensures Within(x & m, n) && Bits(x & m, n) == Bits(x, n)
  {
    MaskedWithin(x, m, n);
    MaskTwice(x, m);
    SameLowBits(x & m, x, m, n);
  }

  /** `(1 << n) - 1` */
  function LowMask(n: nat): bv32 {
    ShiftLeft(1, n) - 1
  }

  lemma ShiftMask(n: nat, m: bv32)
    requires n <= 7 && m == LowMask(n)
    ensures Covers(m, n) && Within(m, n)
  {
    if n == 0 { assert m == 0; }
    else if n == 1 { assert m == 1; }
    else if n == 2 { assert m == 3; }
    else if n == 3 { assert m == 7; }
    else if n == 4 { assert m == 15; }
    else if n == 5 { assert m == 31; }
    else if n == 6 { assert m == 63; }
    else { assert m == 127; }
  }

  /** Masking with `(1 << n) - 1` keeps the low `n` bits and clears everything above. */
  lemma Masked(x: bv32, n: nat, m: bv32)
    requires n <= 7 && m == LowMask(n)
    ensures Within(x & m, n) && Bits(x & m, n) == Bits(x, n)
  {
    hide *;
    ShiftMask(n, m);
    MaskedBy(x, m, n);
  }

  /** A word of `n` bits is zero exactly when its bit string is. */
  lemma {:induction false} ZeroIffBits(x: bv32, n: nat)
    requires Within(x, n)
    ensures x == 0 <==> Bits(x, n) == Zeros(n)
    decreases n
  {
    if n > 0 {
      ZeroIffBits(x >> 1, n - 1);
      assert Bits(x, n)[..n - 1] == Bits(x >> 1, n - 1);
      assert Zeros(n)[..n - 1] == Zeros(n - 1);
      assert Bits(x, n)[n - 1] == Bit0(x);
      assert Zeros(n) == Zeros(n - 1) + [false];
      if Bits(x, n) == Zeros(n) { ZeroByParts(x); }
    }
  }

  /** The last five bits of a word, spelled out. */
  lemma FiveBits(v: bv32, n: nat)
    ensures Bits(v, n + 5) == Bits(v >> 1 >> 1 >> 1 >> 1 >> 1, n) +
            [Bit0(v >> 1 >> 1 >> 1 >> 1), Bit0(v >> 1 >> 1 >> 1), Bit0(v >> 1 >> 1), Bit0(v >> 1), Bit0(v)]
  {
    assert Bits(v, n + 5) == Bits(v >> 1, n + 4) + [Bit0(v)];
    assert Bits(v >> 1, n + 4) == Bits(v >> 1 >> 1, n + 3) + [Bit0(v >> 1)];
    assert Bits(v >> 1 >> 1, n + 3) == Bits(v >> 1 >> 1 >> 1, n + 2) + [Bit0(v >> 1 >> 1)];
    assert Bits(v >> 1 >> 1 >> 1, n + 2) == Bits(v >> 1 >> 1 >> 1 >> 1, n + 1) + [Bit0(v >> 1 >> 1 >> 1)];
    assert Bits(v >> 1 >> 1 >> 1 >> 1, n + 1)
           == Bits(v >> 1 >> 1 >> 1 >> 1 >> 1, n) + [Bit0(v >> 1 >> 1 >> 1 >> 1)];
  }

  /** Reading bit `k` counted from the right. */
  lemma {:induction false} BitAt(x: bv32, n: nat, k: nat)
    requires k < n
    ensures Bits(x, n)[n - 1 - k] == Bit0(ShiftRight(x, k))
    decreases k
  {
    hide Bit0;
    if k > 0 {
      BitAt(x >> 1, n - 1, k - 1);
    }
  }

  ghost predicate SameByteBits(x: bv32, y: bv32) {
    forall k | 0 <= k < 8 :: Bit0(ShiftRight(x, k)) == Bit0(ShiftRight(y, k))
  }

  lemma SameByte(x: bv32, y: bv32)
    requires Bits(x, 8) == Bits(y, 8)
    ensures SameByteBits(x, y)
  {
    hide Bit0, ShiftRight, Bits;
    forall k | 0 <= k < 8
      ensures Bit0(ShiftRight(x, k)) == Bit0(ShiftRight(y, k))
    {
      BitAt(x, 8, k);
      BitAt(y, 8, k);
    }
  }

  lemma SameNibble(x: bv32, y: bv32)
    requires forall k | 0 <= k < 4 :: Bit0(ShiftRight(x, k)) == Bit0(ShiftRight(y, k))
    ensures x & 0xf == y & 0xf
  {
    assert Bit0(ShiftRight(x, 0)) == Bit0(ShiftRight(y, 0));
    assert Bit0(ShiftRight(x, 1)) == Bit0(ShiftRight(y, 1));
    assert Bit0(ShiftRight(x, 2)) == Bit0(ShiftRight(y, 2));
    assert Bit0(ShiftRight(x, 3)) == Bit0(ShiftRight(y, 3));
  }

  lemma ShiftTwice(x: bv32, k: nat)
    ensures ShiftRight(x, 4 + k) == ShiftRight(x >> 1 >> 1 >> 1 >> 1, k)
  {
    assert ShiftRight(x, 4 + k) == ShiftRight(x >> 1, 3 + k);
    assert ShiftRight(x >> 1, 3 + k) == ShiftRight(x >> 1 >> 1, 2 + k);
    assert ShiftRight(x >> 1 >> 1, 2 + k) == ShiftRight(x >> 1 >> 1 >> 1, 1 + k);
    assert ShiftRight(x >> 1 >> 1 >> 1, 1 + k) == ShiftRight(x >> 1 >> 1 >> 1 >> 1, k);
  }

  lemma SameWord(x: bv32, y: bv32)
    requires SameByteBits(x, y)
    ensures x & 0xff == y & 0xff
  {
    hide Bit0, ShiftRight;
    SameNibble(x, y);
    var x4, y4 := x >> 1 >> 1 >> 1 >> 1, y >> 1 >> 1 >> 1 >> 1;
    forall k | 0 <= k < 4
      ensures Bit0(ShiftRight(x4, k)) == Bit0(ShiftRight(y4, k))
    {
      ShiftTwice(x, k);
      ShiftTwice(y, k);
    }
    SameNibble(x4, y4);
    TwoNibbles(x, y);
  }

  /** `(x << 5) | v` */
  function PushFive(x: bv32, v: bv32): bv32 {
    (x << 5) | v
  }

  /** `x & ((1 << n) - 1)` */
  function KeepLow(x: bv32, n: nat): bv32 {
    x & LowMask(n)
  }

  /** `(x >>> c) & 0xff` */
  function ByteAt(x: bv32, c: nat): bv8 {
    (ShiftRight(x, c) & 0xff) as bv8
  }

  lemma ByteAtIs(x: bv32, c: nat)
    ensures Bits(ByteAt(x, c) as bv32, 8) == Bits(ShiftRight(x, c) & 0xff, 8)
  {
    hide Bits, ShiftRight;
    Narrow(ShiftRight(x, c));
  }

  lemma Narrow(x: bv32)
    ensures ((x & 0xff) as bv8) as bv32 == x & 0xff
  {
  }

  lemma KeptLow(x: bv32, n: nat)
    requires n <= 7
    ensures Within(KeepLow(x, n), n) && Bits(KeepLow(x, n), n) == Bits(x, n)
  {
    hide Within, Bits, LowMask;
    Masked(x, n, LowMask(n));
  }

  /** Shifting five bits in at the bottom, whatever falls off the top. */
  lemma PushSymbol(x: bv32, v: bv32, n: nat)
    requires n <= 8 && v < 32
    ensures Bits(PushFive(x, v), n + 5) == Bits(x, n) + Bits(v, 5)
  {
    var y := PushFive(x, v);
    FiveShifts(x, v);
    FiveBits(y, n);
    FiveBits(v, 0);
    LowAgree(y >> 1 >> 1 >> 1 >> 1 >> 1, x, n);
  }

  /** Taking the top eight of `c + 8` pending bits. */
  lemma PopByte(y: bv32, c: nat)
    ensures Bits(y, c + 8) == Bits(ShiftRight(y, c) & 0xff, 8) + Bits(y, c)
  {
    MaskTwice(ShiftRight(y, c), 0xff);
    LowAgree(ShiftRight(y, c), ShiftRight(y, c) & 0xff, 8);
    SplitTop(y, c);
  }

  lemma {:induction false} SplitTop(y: bv32, c: nat)
    ensures Bits(y, c + 8) == Bits(ShiftRight(y, c), 8) + Bits(y, c)
    decreases c
  {
    if c > 0 {
      SplitTop(y >> 1, c - 1);
    }
  }

  lemma FiveBitsInjective(v: bv32, w: bv32)
    requires v < 32 && w < 32 && Bits(v, 5) == Bits(w, 5)
    ensures v == w
  {
    FiveBits(v, 0);
    FiveBits(w, 0);
    var b, c := Bits(v, 5), Bits(w, 5);
    assert b[0] == c[0] && b[1] == c[1] && b[2] == c[2] && b[3] == c[3] && b[4] == c[4];
    FiveBitsDecide(v, w);
  }
}

/** Unpadded base32 (section 6 of RFC 4648) as a relation between strings and bytes, and the two decoders. */
module Base32 {
  import opened WordFacts
  import opened WordBits
  import opened Wrappers

  const BASE32_ALPHABET: string := "ABCDEFGHIJKLMNOPQRSTUVWXYZ234567"

  /** `s.indexOf(c)`, searching from position `from`. */
  function IndexOf(s: string, c: char, from: nat := 0): (r: int)
    requires from <= |s|
    ensures r == -1 <==> c !in s[from..]
    ensures r != -1 ==> from <= r < |s| && s[r] == c
    decreases |s| - from
  {
    if from == |s| then -1
    else if s[from] == c then from
    else
      assert s[from..] == [s[from]] + s[from + 1..];
      IndexOf(s, c, from + 1)
  }

  /** `BASE32_ALPHABET.indexOf(c)` */
  function SymbolIndex(c: char): (r: int)
    ensures -1 <= r < 32
  {
    IndexOf(BASE32_ALPHABET, c)
  }

  predicate IsSymbol(c: char) {
    SymbolIndex(c) != -1
  }

  ghost predicate AllSymbols(s: string) {
    forall i | 0 <= i < |s| :: IsSymbol(s[i])
  }

  /** A small number as a machine word. */
  function Word(i: int): (w: bv32)
    requires 0 <= i < 32
    ensures w < 32
  {
    SmallInt(i);
    i as bv32
  }

  function Symbol(c: char): (v: bv32)
    requires IsSymbol(c)
    ensures v < 32
  {
    Word(SymbolIndex(c))
  }

  lemma SmallInt(i: int)
    requires 0 <= i < 32
    ensures (i as bv32) < 32 && (i as bv32) as int == i
  {
  }

  lemma SymbolInjective(c: char, d: char)
    requires IsSymbol(c) && IsSymbol(d) && Symbol(c) == Symbol(d)
    ensures c == d
  {
    SmallInt(SymbolIndex(c));
    SmallInt(SymbolIndex(d));
  }

  /** Five bits a character. */
  ghost function StringBits(s: string): (r: seq<bool>)
    requires AllSymbols(s)
    ensures |r| == 5 * |s|
  {
    if s == [] then [] else StringBits(s[..|s| - 1]) + Bits(Symbol(s[|s| - 1]), 5)
  }

  /** Eight bits a byte. */
  ghost function ByteBits(bytes: seq<bv8>): (r: seq<bool>)
    ensures |r| == 8 * |bytes|
  {
    if bytes == [] then [] else ByteBits(bytes[..|bytes| - 1]) + Bits(bytes[|bytes| - 1] as bv32, 8)
  }

  /** `Math.ceil(n / 5)`. */
  function CeilFifth(n: nat): nat {
    (n + 4) / 5
  }

  /** RFC 4648: the bits of the bytes, padded with zero bits to a whole number of characters, and no more. */
  ghost predicate Encodes(s: string, bytes: seq<bv8>) {
    && AllSymbols(s)
    && |s| == CeilFifth(8 * |bytes|)
    && StringBits(s) == ByteBits(bytes) + Zeros(5 * |s| - 8 * |bytes|)
  }

  /** What both decoders have read so far: whole bytes, and fewer than eight bits still pending. */
  ghost predicate Decoding(input: string, i: nat, bytes: seq<bv8>, pending: bv32, bitCount: nat) {
    && i <= |input| && AllSymbols(input[..i]) && bitCount < 8
    && 5 * i == 8 * |bytes| + bitCount
    && StringBits(input[..i]) == ByteBits(bytes) + Bits(pending, bitCount)
  }

  lemma AppendSymbol(input: string, i: nat)
    requires i < |input| && AllSymbols(input[..i]) && IsSymbol(input[i])
    ensures AllSymbols(input[..i + 1])
    ensures StringBits(input[..i + 1]) == StringBits(input[..i]) + Bits(Symbol(input[i]), 5)
  {
    hide Bits, Symbol, IsSymbol;
    var pre := input[..i + 1];
    assert pre[..|pre| - 1] == input[..i] && pre[|pre| - 1] == input[i];
  }

  lemma AppendByte(bytes: seq<bv8>, b: bv8)
    ensures ByteBits(bytes + [b]) == ByteBits(bytes) + Bits(b as bv32, 8)
  {
    hide Bits;
    assert (bytes + [b])[..|bytes|] == bytes;
  }

  lemma ShiftIn(input: string, i: nat, bytes: seq<bv8>, pending: bv32, bitCount: nat)
    requires Decoding(input, i, bytes, pending, bitCount) && i < |input| && IsSymbol(input[i])
    ensures AllSymbols(input[..i + 1])
    ensures StringBits(input[..i + 1]) == ByteBits(bytes) + Bits(PushFive(pending, Symbol(input[i])), bitCount + 5)
  {
    hide Bits, Symbol, StringBits, ByteBits, IsSymbol, PushFive;
    AppendSymbol(input, i);
    PushSymbol(pending, Symbol(input[i]), bitCount);
  }

  /** One character: shift it in; hand over a byte when eight bits are there. */
  lemma DecodeStep(input: string, i: nat, bytes: seq<bv8>, pending: bv32, bitCount: nat)
    requires Decoding(input, i, bytes, pending, bitCount) && i < |input| && IsSymbol(input[i])
    ensures var next := PushFive(pending, Symbol(input[i]));
            if bitCount + 5 >= 8 then
              Decoding(input, i + 1, bytes + [ByteAt(next, bitCount - 3)], next, bitCount - 3)
            else Decoding(input, i + 1, bytes, next, bitCount + 5)
  {
    hide Bits, PushFive, StringBits, ByteBits, ShiftRight, ByteAt, AllSymbols, IsSymbol, Symbol;
    var next := PushFive(pending, Symbol(input[i]));
    ShiftIn(input, i, bytes, pending, bitCount);
    if bitCount + 5 >= 8 {
      var c: nat := bitCount - 3;
      PopByte(next, c);
      ByteAtIs(next, c);
      AppendByte(bytes, ByteAt(next, c));
    }
  }

  lemma MaskPending(input: string, i: nat, bytes: seq<bv8>, pending: bv32, bitCount: nat)
    requires Decoding(input, i, bytes, pending, bitCount)
    ensures Decoding(input, i, bytes, KeepLow(pending, bitCount), bitCount)
    ensures Within(KeepLow(pending, bitCount), bitCount)
  {
    hide Bits, StringBits, ByteBits, KeepLow, AllSymbols, Within;
    KeptLow(pending, bitCount);
  }

  /** At the end: no other byte string can be meant, and the two final tests decide whether this one is. */
  lemma DecodeDone(input: string, bytes: seq<bv8>, pending: bv32, bitCount: nat)
    requires Decoding(input, |input|, bytes, pending, bitCount) && Within(pending, bitCount)
    ensures Encodes(input, bytes) <==> pending == 0 && |input| == CeilFifth(8 * |bytes|)
    ensures forall other :: Encodes(input, other) ==> other == bytes
  {
    hide Bits, StringBits, ByteBits, AllSymbols, Within;
    assert input[..|input|] == input;
    ZeroIffBits(pending, bitCount);
    var s := StringBits(input);
    if |input| == CeilFifth(8 * |bytes|) {
      assert s[8 * |bytes|..] == Bits(pending, bitCount);
      if Encodes(input, bytes) {
        assert s[8 * |bytes|..] == Zeros(bitCount);
      }
    }
    forall other | Encodes(input, other)
      ensures other == bytes
    {
      assert |other| == |bytes|;
      assert s[..8 * |bytes|] == ByteBits(bytes);
      assert s[..8 * |bytes|] == ByteBits(other);
      ByteBitsInjective(bytes, other);
    }
  }

  lemma LastByte(a: seq<bv8>)
    requires a != []
    ensures ByteBits(a)[..8 * (|a| - 1)] == ByteBits(a[..|a| - 1])
    ensures ByteBits(a)[8 * (|a| - 1)..] == Bits(a[|a| - 1] as bv32, 8)
  {
    hide Bits;
  }

  lemma {:induction false} ByteBitsInjective(a: seq<bv8>, b: seq<bv8>)
    requires |a| == |b| && ByteBits(a) == ByteBits(b)
    ensures a == b
  {
    hide Bits, ByteBits;
    if a != [] {
      var k := |a| - 1;
      LastByte(a);
      LastByte(b);
      ByteBitsInjective(a[..k], b[..k]);
      ByteInjective(a[k], b[k]);
      assert a == a[..k] + [a[k]] && b == b[..k] + [b[k]];
    }
  }

  lemma ByteInjective(a: bv8, b: bv8)
    requires Bits(a as bv32, 8) == Bits(b as bv32, 8)
    ensures a == b
  {
    hide SameByteBits, Bits;
    SameByte(a as bv32, b as bv32);
    SameWord(a as bv32, b as bv32);
    WidenInjective(a, b);
  }

  lemma WidenInjective(a: bv8, b: bv8)
    requires a as bv32 & 0xff == b as bv32 & 0xff
    ensures a == b
  {
  }

  // --- the encoder of section 6 of RFC 4648, as the independent reference ---

  function FromBits(b: seq<bool>): (v: bv32)
    requires |b| == 5
    ensures v < 32
  {
    (if b[0] then 16 else 0) | (if b[1] then 8 else 0) | (if b[2] then 4 else 0) | (if b[3] then 2 else 0) |
    (if b[4] then 1 else 0)
  }

  lemma FromBitsInverse(b: seq<bool>)
    requires |b| == 5
    ensures Bits(FromBits(b), 5) == b
  {
    hide Bits;
    var v := FromBits(b);
    FromBitsShifts(b);
    FiveBits(v, 0);
    NoBits(v >> 1 >> 1 >> 1 >> 1 >> 1);
  }

  lemma NoBits(x: bv32)
    ensures Bits(x, 0) == []
  {
  }

  lemma FromBitsShifts(b: seq<bool>)
    requires |b| == 5
    ensures var v := FromBits(b);
            Bit0(v) == b[4] && Bit0(v >> 1) == b[3] && Bit0(v >> 1 >> 1) == b[2] &&
            Bit0(v >> 1 >> 1 >> 1) == b[1] && Bit0(v >> 1 >> 1 >> 1 >> 1) == b[0]
  {
  }

  /** The character standing for a five-bit value. */
  function CharOf(v: bv32): (c: char)
    requires v < 32
    ensures IsSymbol(c)
  {
    SmallWord(v);
    InAlphabet(v as int);
    BASE32_ALPHABET[v as int]
  }

  lemma InAlphabet(i: nat)
    requires i < 32
    ensures SymbolIndex(BASE32_ALPHABET[i]) == i
  {
    var j := SymbolIndex(BASE32_ALPHABET[i]);
    assert BASE32_ALPHABET[0..] == BASE32_ALPHABET;
    assert j != -1;
    AlphabetAt(i);
    AlphabetAt(j);
  }

  lemma SmallWord(v: bv32)
    requires v < 32
    ensures 0 <= v as int < 32 && (v as int) as bv32 == v
  {
  }

  lemma AlphabetAt(i: nat)
    requires i < 32
    ensures BASE32_ALPHABET[i] as int == if i < 26 then 'A' as int + i else '2' as int + (i - 26)
  {
  }

  lemma SymbolOfChar(v: bv32)
    requires v < 32
    ensures Symbol(CharOf(v)) == v
  {
    hide SymbolIndex, IsSymbol;
    SmallWord(v);
    InAlphabet(v as int);
  }

  ghost function Padded(bytes: seq<bv8>): (r: seq<bool>)
    ensures |r| == 5 * CeilFifth(8 * |bytes|)
  {
    ByteBits(bytes) + Zeros(5 * CeilFifth(8 * |bytes|) - 8 * |bytes|)
  }

  /** Spell a bit string out five bits at a time. */
  ghost function Spell(b: seq<bool>): (s: string)
    requires |b| % 5 == 0
    ensures |s| == |b| / 5 && AllSymbols(s)
    decreases |b|
  {
    if b == [] then ""
    else
      var s := Spell(b[..|b| - 5]) + [CharOf(FromBits(b[|b| - 5..]))];
      assert forall i | 0 <= i < |s| - 1 :: s[i] == Spell(b[..|b| - 5])[i];
      s
  }

  lemma {:induction false} SpellBits(b: seq<bool>)
    requires |b| % 5 == 0
    ensures StringBits(Spell(b)) == b
    decreases |b|
  {
    if b != [] {
      SpellBits(b[..|b| - 5]);
      SpellLast(b);
    }
  }

  lemma SpellLast(b: seq<bool>)
    requires b != [] && |b| % 5 == 0 && StringBits(Spell(b[..|b| - 5])) == b[..|b| - 5]
    ensures StringBits(Spell(b)) == b
  {
    hide Bits, FromBits, CharOf, Symbol, StringBits, IsSymbol, AllSymbols, Spell;
    var k := |b| - 5;
    var t := Spell(b);
    SpellUnfolds(b);
    assert t[..|t| - 1] == Spell(b[..k]);
    LastChar(t);
    SymbolOfChar(FromBits(b[k..]));
    FromBitsInverse(b[k..]);
    assert b[..k] + b[k..] == b;
  }

  lemma SpellUnfolds(b: seq<bool>)
    requires b != [] && |b| % 5 == 0
    ensures Spell(b) == Spell(b[..|b| - 5]) + [CharOf(FromBits(b[|b| - 5..]))]
  {
    hide FromBits, CharOf, IsSymbol;
  }

  ghost function Encode(bytes: seq<bv8>): string {
    Spell(Padded(bytes))
  }

  /** The relation the decoders are held to is exactly "is the RFC 4648 encoding of". */
  lemma EncodesIffEncode(s: string, bytes: seq<bv8>)
    ensures Encodes(s, bytes) <==> s == Encode(bytes)
  {
    hide StringBits, ByteBits, AllSymbols, Spell;
    SpellBits(Padded(bytes));
    if Encodes(s, bytes) {
      StringBitsInjective(s, Encode(bytes));
    }
  }

  lemma LastChar(s: string)
    requires s != [] && AllSymbols(s)
    ensures AllSymbols(s[..|s| - 1])
    ensures StringBits(s) == StringBits(s[..|s| - 1]) + Bits(Symbol(s[|s| - 1]), 5)
  {
    hide Bits, Symbol, IsSymbol;
  }

  lemma LastCharParts(s: string)
    requires s != [] && AllSymbols(s)
    ensures AllSymbols(s[..|s| - 1])
    ensures StringBits(s)[..5 * (|s| - 1)] == StringBits(s[..|s| - 1])
    ensures StringBits(s)[5 * (|s| - 1)..] == Bits(Symbol(s[|s| - 1]), 5)
  {
    hide Bits, Symbol, IsSymbol, StringBits;
    LastChar(s);
  }

  lemma {:induction false} StringBitsInjective(s: string, t: string)
    requires AllSymbols(s) && AllSymbols(t) && StringBits(s) == StringBits(t)
    ensures s == t
    decreases |s|
  {
    hide Bits, StringBits, Symbol, IsSymbol;
    assert |s| == |t|;
    if s != [] {
      var k := |s| - 1;
      LastCharParts(s);
      LastCharParts(t);
      StringBitsInjective(s[..k], t[..k]);
      FiveBitsInjective(Symbol(s[k]), Symbol(t[k]));
      SymbolInjective(s[k], t[k]);
      assert s == s[..k] + [s[k]] && t == t[..k] + [t[k]];
    }
  }

  // --- the two decoders ---

  ghost predicate Reading(input: string, i: nat, bytes: seq<bv8>, bitBuffer: bv32, bitCount: nat) {
    Decoding(input, i, bytes, bitBuffer, bitCount) && Within(bitBuffer, bitCount)
  }

  lemma ReadingStarts(input: string)
    ensures Reading(input, 0, [], 0, 0)
  {
  }

  /** One turn of the masked decoder's loop. */
  lemma ReadSymbol(input: string, i: nat, bytes: seq<bv8>, bitBuffer: bv32, bitCount: nat)
    requires Reading(input, i, bytes, bitBuffer, bitCount) && i < |input| && IsSymbol(input[i])
    ensures var next := PushFive(bitBuffer, Symbol(input[i]));
            if bitCount + 5 >= 8 then
              Reading(input, i + 1, bytes + [ByteAt(next, bitCount - 3)], KeepLow(next, bitCount - 3), bitCount - 3)
            else Reading(input, i + 1, bytes, KeepLow(next, bitCount + 5), bitCount + 5)
  {
    hide Bits, StringBits, ByteBits, Symbol, ByteAt, Within, PushFive, KeepLow, Decoding, IsSymbol;
    var next := PushFive(bitBuffer, Symbol(input[i]));
    DecodeStep(input, i, bytes, bitBuffer, bitCount);
    if bitCount + 5 >= 8 {
      MaskPending(input, i + 1, bytes + [ByteAt(next, bitCount - 3)], next, bitCount - 3);
    } else {
      MaskPending(input, i + 1, bytes, next, bitCount + 5);
    }
  }

  /** The masked decoder of the address package. */
  method DecodeBase32(input: string) returns (r: Option<seq<bv8>>)
    ensures r.Some? ==> Encodes(input, r.value)
    ensures r.None? ==> forall bytes :: !Encodes(input, bytes)
  {
    hide Reading, Word, SymbolIndex, PushFive, KeepLow, ByteAt, Encodes, IndexOf;
    var bitBuffer: bv32 := 0;
    var bitCount := 0;
    var bytes: seq<bv8> := [];
    ReadingStarts(input);
    var i := 0;
    while i < |input|
      invariant i <= |input| && Reading(input, i, bytes, bitBuffer, bitCount)
    {
      var symbol := SymbolIndex(input[i]);
      if symbol == -1 {
        NotSymbol(input, i);
        return None;
      }
      ReadSymbol(input, i, bytes, bitBuffer, bitCount);
      bitBuffer := PushFive(bitBuffer, Word(symbol));
      bitCount := bitCount + 5;
      if bitCount >= 8 {
        bitCount := bitCount - 8;
        bytes := bytes + [ByteAt(bitBuffer, bitCount)];
      }
      bitBuffer := KeepLow(bitBuffer, bitCount);
      i := i + 1;
    }
    ReadingEnds(input, bytes, bitBuffer, bitCount);
    if bitBuffer != 0 {
      return None;
    }
    if |input| != CeilFifth(|bytes| * 8) {
      return None;
    }
    return Some(bytes);
  }

  lemma ReadingEnds(input: string, bytes: seq<bv8>, bitBuffer: bv32, bitCount: nat)
    requires Reading(input, |input|, bytes, bitBuffer, bitCount)
    ensures Encodes(input, bytes) <==> bitBuffer == 0 && |input| == CeilFifth(8 * |bytes|)
    ensures forall other :: Encodes(input, other) ==> other == bytes
  {
    hide Decoding, Within, Encodes;
    DecodeDone(input, bytes, bitBuffer, bitCount);
  }

  lemma NotSymbol(input: string, i: nat)
    requires i < |input| && SymbolIndex(input[i]) == -1
    ensures forall bytes :: !Encodes(input, bytes)
  {
  }

  /** The asset package's decoder: nothing is masked, so stale bits pile up on the left and fall off at bit 32;
      leftover bits at the end are dropped. It still reads the same bytes. */
  method DecodeBase32Unmasked(input: string) returns (r: Option<seq<bv8>>)
    ensures r.Some? <==> AllSymbols(input)
    ensures r.Some? ==> |r.value| == 5 * |input| / 8 && ByteBits(r.value) == StringBits(input)[..8 * |r.value|]
  {
    hide Decoding, Word, SymbolIndex, PushFive, ByteAt, IndexOf, Bits, ByteBits, StringBits;
    var bytes := new bv8[|input| * 5 / 8];
    var bits := 0;
    var value: bv32 := 0;
    var index := 0;
    DecodingStarts(input);
    var i := 0;
    while i < |input|
      invariant i <= |input| && bits < 8 && 5 * i == 8 * index + bits && index <= bytes.Length
      invariant Decoding(input, i, bytes[..index], value, bits)
    {
      var val := SymbolIndex(input[i]);
      if val == -1 {
        return None;
      }
      DecodeStep(input, i, bytes[..index], value, bits);
      value := PushFive(value, Word(val));
      bits := bits + 5;
      if bits >= 8 {
        bits := bits - 8;
        ghost var read := bytes[..index];
        bytes[index] := ByteAt(value, bits);
        index := index + 1;
        assert bytes[..index] == read + [ByteAt(value, bits)];
      }
      i := i + 1;
    }
    DecodedPrefix(input, bytes[..index], value, bits);
    return Some(bytes[..index]);
  }

  lemma DecodingStarts(input: string)
    ensures Decoding(input, 0, [], 0, 0)
  {
  }

  lemma DecodedPrefix(input: string, bytes: seq<bv8>, pending: bv32, bitCount: nat)
    requires Decoding(input, |input|, bytes, pending, bitCount)
    ensures AllSymbols(input) && |bytes| == 5 * |input| / 8
    ensures ByteBits(bytes) == StringBits(input)[..8 * |bytes|]
  {
    hide Bits, StringBits, ByteBits, IsSymbol;
    assert input[..|input|] == input;
  }
}
