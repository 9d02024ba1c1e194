/** Which characters of an address can disturb which bytes. */
module AddressBits {
  import opened WordFacts
  import opened WordBits
  import opened Base32

  lemma {:induction false} StringBitsSplit(s: string, t: string)
    requires AllSymbols(s) && AllSymbols(t)
    ensures AllSymbols(s + t) && StringBits(s + t) == StringBits(s) + StringBits(t)
    decreases |t|
  {
    hide Bits, Symbol, IsSymbol, StringBits;
    assert AllSymbols(s + t);
    if t == "" {
      assert s + t == s;
      NoStringBits();
    } else {
      var k := |t| - 1;
      StringBitsSplit(s, t[..k]);
      assert (s + t)[..|s + t| - 1] == s + t[..k];
      LastChar(s + t);
      LastChar(t);
    }
  }

  lemma NoStringBits()
    ensures StringBits("") == []
  {
  }

  lemma OneStringBits(c: char)
    requires IsSymbol(c)
    ensures StringBits([c]) == Bits(Symbol(c), 5)
  {
    hide Bits, Symbol, IsSymbol, StringBits;
    LastChar([c]);
    NoStringBits();
    assert [c][..0] == "";
  }

  lemma ThreeParts(w: seq<bool>, a: seq<bool>, b: seq<bool>, c: seq<bool>)
    requires w == a + (b + c)
    ensures w[..|a|] == a && w[|a|..|a| + |b|] == b && w[|a| + |b|..] == c
  {
  }

  lemma PartsAreSymbols(s: string, k: nat)
    requires AllSymbols(s) && k < |s|
    ensures AllSymbols(s[..k]) && AllSymbols(s[k + 1..]) && IsSymbol(s[k]) && AllSymbols([s[k]])
    ensures s == s[..k] + ([s[k]] + s[k + 1..])
  {
    hide IsSymbol;
  }

  lemma SplitAt(s: string, k: nat)
    requires AllSymbols(s) && k < |s|
    ensures AllSymbols(s[..k]) && AllSymbols(s[k + 1..]) && IsSymbol(s[k])
    ensures StringBits(s) == StringBits(s[..k]) + (Bits(Symbol(s[k]), 5) + StringBits(s[k + 1..]))
  {
    hide Bits, Symbol, IsSymbol, StringBits, AllSymbols;
    PartsAreSymbols(s, k);
    StringBitsSplit([s[k]], s[k + 1..]);
    StringBitsSplit(s[..k], [s[k]] + s[k + 1..]);
    OneStringBits(s[k]);
  }

  /** The bits before and after one character come from the other characters. */
  lemma AroundChar(s: string, k: nat)
    requires AllSymbols(s) && k < |s|
    ensures AllSymbols(s[..k]) && AllSymbols(s[k + 1..]) && IsSymbol(s[k])
    ensures StringBits(s)[..5 * k] == StringBits(s[..k])
    ensures StringBits(s)[5 * k..5 * k + 5] == Bits(Symbol(s[k]), 5)
    ensures StringBits(s)[5 * k + 5..] == StringBits(s[k + 1..])
  {
    hide Bits, Symbol, IsSymbol, StringBits, AllSymbols;
    SplitAt(s, k);
    ThreeParts(StringBits(s), StringBits(s[..k]), Bits(Symbol(s[k]), 5), StringBits(s[k + 1..]));
  }

  lemma SubstitutedBits(s: string, t: string, k: nat)
    requires AllSymbols(s) && AllSymbols(t) && k < |s| == |t| && s[..k] == t[..k] && s[k + 1..] == t[k + 1..]
    ensures StringBits(s)[..5 * k] == StringBits(t)[..5 * k]
    ensures StringBits(s)[5 * k + 5..] == StringBits(t)[5 * k + 5..]
  {
    hide StringBits, AllSymbols, Bits, Symbol;
    AroundChar(s, k);
    AroundChar(t, k);
  }

  lemma {:induction false} ByteBitsAt(bytes: seq<bv8>, m: nat)
    requires m < |bytes|
    ensures ByteBits(bytes)[8 * m..8 * m + 8] == Bits(bytes[m] as bv32, 8)
    decreases |bytes|
  {
    hide Bits, ByteBits;
    LastByte(bytes);
    var k := |bytes| - 1;
    if m < k {
      ByteBitsAt(bytes[..k], m);
      assert ByteBits(bytes)[8 * m..8 * m + 8] == ByteBits(bytes)[..8 * k][8 * m..8 * m + 8];
    } else {
      assert ByteBits(bytes)[8 * m..8 * m + 8] == ByteBits(bytes)[8 * k..];
    }
  }

  /** Two 56-character encodings that differ in character `k`. */
  ghost predicate Substituted(s: string, t: string, k: nat, b: seq<bv8>, c: seq<bv8>) {
    && |b| == |c| == 35 && |s| == |t| == 56 && k < 56
    && Encodes(s, b) && Encodes(t, c) && s[..k] == t[..k] && s[k + 1..] == t[k + 1..]
  }

  lemma FullBits(s: string, b: seq<bv8>)
    requires Encodes(s, b) && |b| == 35 && |s| == 56
    ensures AllSymbols(s) && StringBits(s) == ByteBits(b)
  {
    hide StringBits, ByteBits, AllSymbols;
    assert Zeros(0) == [];
  }

  /** A byte none of whose bits lie in character `k` is unchanged. */
  lemma ByteOutside(s: string, t: string, k: nat, b: seq<bv8>, c: seq<bv8>, m: nat)
    requires Substituted(s, t, k, b, c) && m < 35 && (8 * m + 8 <= 5 * k || 8 * m >= 5 * k + 5)
    ensures b[m] == c[m]
  {
    hide StringBits, ByteBits, Bits, AllSymbols;
    FullBits(s, b);
    FullBits(t, c);
    SubstitutedBits(s, t, k);
    var x, y := ByteBits(b), ByteBits(c);
    if 8 * m + 8 <= 5 * k {
      assert x[8 * m..8 * m + 8] == x[..5 * k][8 * m..8 * m + 8];
      assert y[8 * m..8 * m + 8] == y[..5 * k][8 * m..8 * m + 8];
    } else {
      var d := 8 * m - (5 * k + 5);
      assert x[8 * m..8 * m + 8] == x[5 * k + 5..][d..d + 8];
      assert y[8 * m..8 * m + 8] == y[5 * k + 5..][d..d + 8];
    }
    ByteBitsAt(b, m);
    ByteBitsAt(c, m);
    ByteInjective(b[m], c[m]);
  }

  /** Character 52 straddles payload and checksum: four bits here ... */
  lemma StraddlingPayload(s: string, t: string, b: seq<bv8>, c: seq<bv8>)
    requires Substituted(s, t, 52, b, c)
    ensures Bits(b[32] as bv32, 8)[..4] == Bits(c[32] as bv32, 8)[..4]
  {
    hide StringBits, ByteBits, Bits, AllSymbols;
    FullBits(s, b);
    FullBits(t, c);
    SubstitutedBits(s, t, 52);
    ByteBitsAt(b, 32);
    ByteBitsAt(c, 32);
    assert ByteBits(b)[256..264][..4] == ByteBits(b)[..260][256..];
    assert ByteBits(c)[256..264][..4] == ByteBits(c)[..260][256..];
  }

  /** ... and one there. */
  lemma StraddlingChecksum(s: string, t: string, b: seq<bv8>, c: seq<bv8>)
    requires Substituted(s, t, 52, b, c)
    ensures Bits(b[33] as bv32, 8)[1..] == Bits(c[33] as bv32, 8)[1..]
  {
    hide StringBits, ByteBits, Bits, AllSymbols;
    FullBits(s, b);
    FullBits(t, c);
    SubstitutedBits(s, t, 52);
    ByteBitsAt(b, 33);
    ByteBitsAt(c, 33);
    assert ByteBits(b)[264..272][1..] == ByteBits(b)[265..][..7];
    assert ByteBits(c)[264..272][1..] == ByteBits(c)[265..][..7];
  }

  lemma TopNibbleSame(x: bv32, y: bv32)
    requires Bits(x, 8)[..4] == Bits(y, 8)[..4]
    ensures (x >> 1 >> 1 >> 1 >> 1) & 0xf == (y >> 1 >> 1 >> 1 >> 1) & 0xf
  {
    hide Bit0, ShiftRight, Bits;
    var x4, y4 := x >> 1 >> 1 >> 1 >> 1, y >> 1 >> 1 >> 1 >> 1;
    forall j | 0 <= j < 4
      ensures Bit0(ShiftRight(x4, j)) == Bit0(ShiftRight(y4, j))
    {
      ShiftTwice(x, j);
      ShiftTwice(y, j);
      BitAt(x, 8, 4 + j);
      BitAt(y, 8, 4 + j);
      assert Bits(x, 8)[8 - 1 - (4 + j)] == Bits(x, 8)[..4][3 - j];
      assert Bits(y, 8)[8 - 1 - (4 + j)] == Bits(y, 8)[..4][3 - j];
    }
    SameNibble(x4, y4);
  }

  /** Setting the top bit aside, the words agree on a byte. */
  lemma LowSevenSame(x: bv32, y: bv32)
    requires Bits(x, 8)[1..] == Bits(y, 8)[1..]
    ensures (x << 1) & 0xff == (y << 1) & 0xff
  {
    hide Bit0, ShiftRight, Bits;
    var x1, y1 := x << 1, y << 1;
    forall j | 0 <= j < 8
      ensures Bit0(ShiftRight(x1, j)) == Bit0(ShiftRight(y1, j))
    {
      if j == 0 {
        DoubledEven(x);
        DoubledEven(y);
      } else {
        Doubled(x, j);
        Doubled(y, j);
        BitAt(x, 8, j - 1);
        BitAt(y, 8, j - 1);
        assert Bits(x, 8)[8 - 1 - (j - 1)] == Bits(x, 8)[1..][7 - j];
        assert Bits(y, 8)[8 - 1 - (j - 1)] == Bits(y, 8)[1..][7 - j];
      }
    }
    assert SameByteBits(x1, y1);
    SameWord(x1, y1);
  }

  lemma DoubledEven(x: bv32)
    ensures !Bit0(ShiftRight(x << 1, 0))
  {
    assert ShiftRight(x << 1, 0) == x << 1;
  }

  lemma {:induction false} ShiftAgrees(x: bv32, y: bv32, m: bv32, j: nat)
    requires x & m == y & m && Covers(m, j + 1)
    ensures Bit0(ShiftRight(x, j)) == Bit0(ShiftRight(y, j))
    decreases j
  {
    hide Bit0;
    PeelAgreement(x, y, m);
    if j == 0 {
      SameBit0(x, y);
    } else {
      ShiftAgrees(x >> 1, y >> 1, m >> 1, j - 1);
    }
  }

  lemma SameBit0(x: bv32, y: bv32)
    requires x & 1 == y & 1
    ensures Bit0(x) == Bit0(y)
  {
  }

  lemma Doubled(x: bv32, j: nat)
    requires 0 < j < 8
    ensures Bit0(ShiftRight(x << 1, j)) == Bit0(ShiftRight(x, j - 1))
  {
    hide Bit0, Covers;
    CoversByte(j);
    ByteOfHalf(x);
    ShiftAgrees((x << 1) >> 1, x, 0xff, j - 1);
  }

  lemma ByteOfHalf(x: bv32)
    ensures ((x << 1) >> 1) & 0xff == x & 0xff
  {
  }
}

/** StrKey account addresses: the two validators, and what their checksum guarantees. */
module StellarAddress {
  import opened WordBits
  import opened Trimming
  import opened Base32
  import opened Crc16
  import opened CrcDivision
  import opened AddressBits

  datatype ErrorCode = EmptyAddress | InvalidStrKey | UnsupportedAddressType

  datatype Validation = Valid(address: string) | Invalid(code: ErrorCode)

  const ACCOUNT_ID: bv8 := 48 // 6 << 3, 'G'
  const KNOWN_VERSION_BYTES: set<bv8> := {48, 96, 144, 152, 184, 120, 16, 88, 8}

  /** `lo | (hi << 8)` */
  function LittleEndian(lo: bv8, hi: bv8): bv32 {
    (lo as bv32) | ((hi as bv32) << 8)
  }

  /** The last two bytes are the checksum of the others, low byte first. */
  ghost predicate ChecksumMatches(bytes: seq<bv8>)
    requires |bytes| >= 2
  {
    LittleEndian(bytes[|bytes| - 2], bytes[|bytes| - 1]) == Wide(Crc(bytes[..|bytes| - 2]))
  }

  /** `a` spells out an account id, its 32-byte key and their checksum. */
  ghost predicate IsAccount(a: string, bytes: seq<bv8>) {
    Encodes(a, bytes) && |bytes| == 35 && bytes[0] == ACCOUNT_ID && ChecksumMatches(bytes)
  }

  /** Which verdict each input gets. */
  ghost predicate Verdict(input: string, r: Validation) {
    var a := Trim(input);
    match r
    case Valid(address) => address == a && exists bytes :: IsAccount(a, bytes)
    case Invalid(EmptyAddress) => a == ""
    case Invalid(UnsupportedAddressType) =>
      exists bytes :: Encodes(a, bytes) && |bytes| >= 3 && ChecksumMatches(bytes)
                      && bytes[0] in KNOWN_VERSION_BYTES && bytes[0] != ACCOUNT_ID
    case Invalid(InvalidStrKey) =>
      a != "" && forall bytes | Encodes(a, bytes) && |bytes| >= 3 && ChecksumMatches(bytes) ::
        if bytes[0] == ACCOUNT_ID then |bytes| != 35 else bytes[0] !in KNOWN_VERSION_BYTES
  }

  /** The pattern `[A-Z2-7]` */
  predicate InPattern(c: char) {
    'A' <= c <= 'Z' || '2' <= c <= '7'
  }

  lemma PatternIsAlphabet(c: char)
    ensures InPattern(c) <==> IsSymbol(c)
  {
    if InPattern(c) {
      InPatternIsSymbol(c);
    } else if IsSymbol(c) {
      SymbolInPattern(c);
    }
  }

  lemma InPatternIsSymbol(c: char)
    requires InPattern(c)
    ensures IsSymbol(c)
  {
    hide SymbolIndex;
    var i := if c <= '7' then c as int - '2' as int + 26 else c as int - 'A' as int;
    AlphabetAt(i);
    InAlphabet(i);
  }

  lemma SymbolInPattern(c: char)
    requires IsSymbol(c)
    ensures InPattern(c)
  {
    SymbolAt(c);
    hide SymbolIndex;
    AlphabetAt(SymbolIndex(c));
  }

  lemma SymbolAt(c: char)
    requires IsSymbol(c)
    ensures BASE32_ALPHABET[SymbolIndex(c)] == c
  {
    hide IndexOf;
  }

  method MatchesPattern(s: string) returns (r: bool)
    ensures r <==> AllSymbols(s)
  {
    hide IsSymbol;
    r := true;
    for i := 0 to |s|
      invariant r <==> forall j | 0 <= j < i :: IsSymbol(s[j])
    {
      PatternIsAlphabet(s[i]);
      r := r && InPattern(s[i]);
    }
  }

  lemma UniqueBytes(a: string, b: seq<bv8>, c: seq<bv8>)
    requires Encodes(a, b) && Encodes(a, c)
    ensures b == c
  {
    hide StringBits, ByteBits, AllSymbols;
    assert |b| == |c|;
    assert StringBits(a)[..8 * |b|] == ByteBits(b) && StringBits(a)[..8 * |c|] == ByteBits(c);
    ByteBitsInjective(b, c);
  }

  /** No input has two verdicts. */
  lemma VerdictUnique(input: string, r: Validation, q: Validation)
    requires Verdict(input, r) && Verdict(input, q)
    ensures r == q
  {
    hide Encodes, ChecksumMatches;
    var a := Trim(input);
    forall b, c | Encodes(a, b) && Encodes(a, c) ensures b == c { UniqueBytes(a, b, c); }
    if r == Invalid(EmptyAddress) || q == Invalid(EmptyAddress) {
      forall b | Encodes("", b) ensures b == [] { EmptyEncodes(b); }
    }
  }

  lemma EmptyEncodes(b: seq<bv8>)
    requires Encodes("", b)
    ensures b == []
  {
  }

  method ValidateStellarAddress(input: string) returns (r: Validation)
    ensures Verdict(input, r)
  {
    hide Encodes, ChecksumMatches, AllSymbols, LittleEndian, Wide, Crc;
    var address := Trim(input);
    if |address| == 0 {
      return Invalid(EmptyAddress);
    }
    var matches := MatchesPattern(address);
    if !matches {
      forall b ensures !Encodes(address, b) { NotAllSymbols(address, b); }
      return Invalid(InvalidStrKey);
    }
    var decoded := DecodeBase32(address);
    if decoded.None? {
      return Invalid(InvalidStrKey);
    }
    var bytes := decoded.value;
    forall b | Encodes(address, b) ensures b == bytes { UniqueBytes(address, b, bytes); }
    if |bytes| < 3 {
      return Invalid(InvalidStrKey);
    }
    var versionAndPayload, checksumBytes := bytes[..|bytes| - 2], bytes[|bytes| - 2..];
    var expectedChecksum := LittleEndian(checksumBytes[0], checksumBytes[1]);
    var actualChecksum := Crc16Xmodem(versionAndPayload);
    ChecksumIs(bytes);
    if expectedChecksum != actualChecksum {
      return Invalid(InvalidStrKey);
    }
    var versionByte, payload := versionAndPayload[0], versionAndPayload[1..];
    if versionByte != ACCOUNT_ID {
      return Invalid(if versionByte in KNOWN_VERSION_BYTES then UnsupportedAddressType else InvalidStrKey);
    }
    if |payload| != 32 {
      return Invalid(InvalidStrKey);
    }
    assert IsAccount(address, bytes);
    return Valid(address);
  }

  lemma NotAllSymbols(a: string, b: seq<bv8>)
    requires !AllSymbols(a)
    ensures !Encodes(a, b)
  {
  }

  lemma ChecksumIs(bytes: seq<bv8>)
    requires |bytes| >= 2
    ensures ChecksumMatches(bytes) <==>
              LittleEndian(bytes[|bytes| - 2], bytes[|bytes| - 1]) == Wide(Crc(bytes[..|bytes| - 2]))
  {
  }

  /** The address of a 32-byte key. */
  ghost function AddressOf(key: seq<bv8>): string
    requires |key| == 32
  {
    var body := [ACCOUNT_ID] + key;
    Encode(body + [LowHalf(Crc(body)), HighHalf(Crc(body))])
  }

  lemma Halves(lo: bv8, hi: bv8, c: bv16)
    ensures LittleEndian(lo, hi) == Wide(c) <==> lo == LowHalf(c) && hi == HighHalf(c)
  {
    HalvesJoin(c);
    if LittleEndian(lo, hi) == Wide(c) { HalvesSplit(lo, hi, LowHalf(c), HighHalf(c)); }
  }

  lemma HalvesJoin(c: bv16)
    ensures LittleEndian(LowHalf(c), HighHalf(c)) == Wide(c)
  {
  }

  lemma HalvesSplit(lo: bv8, hi: bv8, lo': bv8, hi': bv8)
    requires LittleEndian(lo, hi) == LittleEndian(lo', hi')
    ensures lo == lo' && hi == hi'
  {
  }

  /** Exactly the addresses of 32-byte keys are accepted, each for one key only. */
  lemma AcceptedIffAddressOfKey(input: string)
    ensures Verdict(input, Valid(Trim(input))) <==> exists key | |key| == 32 :: Trim(input) == AddressOf(key)
    ensures forall k, l | |k| == 32 && |l| == 32 && AddressOf(k) == AddressOf(l) :: k == l
  {
    hide Encodes, Encode, ChecksumMatches, LittleEndian, Wide, Crc, LowHalf, HighHalf, Trim;
    var a := Trim(input);
    if Verdict(input, Valid(a)) {
      var bytes :| IsAccount(a, bytes);
      AccountIsAddress(a, bytes);
      assert |bytes[1..33]| == 32;
    }
    if key: seq<bv8> :| |key| == 32 && a == AddressOf(key) {
      var bytes := AddressIsAccount(key);
    }
    forall k, l | |k| == 32 && |l| == 32 && AddressOf(k) == AddressOf(l)
      ensures k == l
    {
      var b := AddressIsAccount(k);
      var c := AddressIsAccount(l);
      UniqueBytes(AddressOf(k), b, c);
    }
  }

  lemma AccountIsAddress(a: string, bytes: seq<bv8>)
    requires IsAccount(a, bytes)
    ensures a == AddressOf(bytes[1..33])
  {
    hide Encodes, Encode, LittleEndian, Wide, Crc, LowHalf, HighHalf;
    var body := bytes[..33];
    assert body == [ACCOUNT_ID] + bytes[1..33];
    Halves(bytes[33], bytes[34], Crc(body));
    assert bytes == body + [bytes[33], bytes[34]];
    EncodesIffEncode(a, bytes);
  }

  lemma AddressIsAccount(key: seq<bv8>) returns (bytes: seq<bv8>)
    requires |key| == 32
    ensures IsAccount(AddressOf(key), bytes) && bytes[1..33] == key
  {
    hide Encodes, Encode, LittleEndian, Wide, Crc, LowHalf, HighHalf;
    var body := [ACCOUNT_ID] + key;
    var c := Crc(body);
    bytes := body + [LowHalf(c), HighHalf(c)];
    assert bytes[..33] == body;
    Halves(bytes[33], bytes[34], c);
    EncodesIffEncode(AddressOf(key), bytes);
  }

  // --- what acceptance means, without naming the checksum ---

  /** The bytes but for the last two, and those high byte first. */
  function Protected(bytes: seq<bv8>): seq<bv8>
    requires |bytes| >= 2
  {
    bytes[..|bytes| - 2] + [bytes[|bytes| - 1], bytes[|bytes| - 2]]
  }

  /** The polynomial of the bytes is a multiple of `x^16 + x^12 + x^5 + 1`. */
  ghost predicate DivisibleByGenerator(bytes: seq<bv8>) {
    exists quotient :: Divides(ByteBits(bytes), quotient, 0)
  }

  lemma NoRemainder(bytes: seq<bv8>)
    ensures Crc(bytes) == 0 <==> DivisibleByGenerator(bytes)
  {
    hide Crc, Divides, ByteBits;
    var q := CrcIsRemainder(bytes);
    if p :| Divides(ByteBits(bytes), p, 0) { RemainderUnique(ByteBits(bytes), p, 0, q, Crc(bytes)); }
  }

  lemma ChecksumIffDivisible(bytes: seq<bv8>)
    requires |bytes| >= 2
    ensures ChecksumMatches(bytes) <==> DivisibleByGenerator(Protected(bytes))
  {
    hide Crc, LittleEndian, Wide, LowHalf, HighHalf, DivisibleByGenerator;
    var lo, hi, body := bytes[|bytes| - 2], bytes[|bytes| - 1], bytes[..|bytes| - 2];
    Halves(lo, hi, Crc(body));
    OnlyChecksumChecks(body, hi, lo);
    NoRemainder(Protected(bytes));
  }

  /**
   * An input is accepted exactly when, trimmed, it spells 35 bytes that start with 48 and, the last two swapped, form a
   * multiple of the generator polynomial.
   */
  lemma AcceptedIffDivisible(input: string)
    ensures Verdict(input, Valid(Trim(input))) <==>
            exists bytes :: |bytes| == 35 && bytes[0] == 48 && Trim(input) == Encode(bytes) &&
              DivisibleByGenerator(Protected(bytes))
  {
    hide Encodes, Encode, ChecksumMatches, DivisibleByGenerator, Trim, Protected;
    forall bytes ensures Encodes(Trim(input), bytes) <==> Trim(input) == Encode(bytes) {
      EncodesIffEncode(Trim(input), bytes);
    }
    forall bytes: seq<bv8> | |bytes| == 35
      ensures ChecksumMatches(bytes) <==> DivisibleByGenerator(Protected(bytes))
    {
      ChecksumIffDivisible(bytes);
    }
    if bytes :| IsAccount(Trim(input), bytes) {
      assert |bytes| == 35 && bytes[0] == 48 && DivisibleByGenerator(Protected(bytes));
    }
    if bytes :| |bytes| == 35 && bytes[0] == 48 && Trim(input) == Encode(bytes) &&
                DivisibleByGenerator(Protected(bytes)) {
      assert IsAccount(Trim(input), bytes);
    }
  }

  /** Refused as of an unsupported type is what spells, likewise, a recognised version other than 48 and any payload. */
  lemma UnsupportedIffDivisible(input: string)
    ensures Verdict(input, Invalid(UnsupportedAddressType)) <==>
            exists bytes :: |bytes| >= 3 && bytes[0] in KNOWN_VERSION_BYTES && bytes[0] != 48 &&
              Trim(input) == Encode(bytes) && DivisibleByGenerator(Protected(bytes))
    ensures Verdict(input, Invalid(EmptyAddress)) <==> Trim(input) == ""
  {
    hide Encodes, Encode, ChecksumMatches, DivisibleByGenerator, Trim, Protected;
    forall bytes ensures Encodes(Trim(input), bytes) <==> Trim(input) == Encode(bytes) {
      EncodesIffEncode(Trim(input), bytes);
    }
    forall bytes: seq<bv8> | |bytes| >= 2
      ensures ChecksumMatches(bytes) <==> DivisibleByGenerator(Protected(bytes))
    {
      ChecksumIffDivisible(bytes);
    }
  }

  const KNOWN_LETTERS := "GMSTXPCLB"

  lemma LetterIndex(i: nat)
    requires i < 26
    ensures SymbolIndex(('A' as int + i) as char) == i
  {
    InAlphabet(i);
    AlphabetAt(i);
  }

  /** The recognised version bytes are those of the addresses that start with one of nine letters. */
  lemma KnownVersions(v: bv8)
    ensures v in KNOWN_VERSION_BYTES <==> exists i :: 0 <= i < 9 && v as int == 8 * SymbolIndex(KNOWN_LETTERS[i])
  {
    hide SymbolIndex;
    LetterIndex(6);
    LetterIndex(12);
    LetterIndex(18);
    LetterIndex(19);
    LetterIndex(23);
    LetterIndex(15);
    LetterIndex(2);
    LetterIndex(11);
    LetterIndex(1);
    ByteValues(v);
    assert KNOWN_LETTERS[0] == 'G' && KNOWN_LETTERS[1] == 'M' && KNOWN_LETTERS[2] == 'S' && KNOWN_LETTERS[3] == 'T';
    assert KNOWN_LETTERS[4] == 'X' && KNOWN_LETTERS[5] == 'P' && KNOWN_LETTERS[6] == 'C' && KNOWN_LETTERS[7] == 'L';
    assert KNOWN_LETTERS[8] == 'B';
  }

  lemma ByteValues(v: bv8)
    ensures v in KNOWN_VERSION_BYTES <==> v as int in {48, 96, 144, 152, 184, 120, 16, 88, 8}
  {
  }

  // --- error detection ---

  /** Replacing any one character of an accepted address by any other character makes it rejected. */
  lemma SingleSubstitutionRejected(a: string, k: nat, c: char)
    requires Verdict(a, Valid(a)) && k < |a| && c != a[k]
    ensures forall r: Validation | Verdict(a[k := c], r) :: r.Invalid?
  {
    hide Encodes, ChecksumMatches, Trim;
    var t := a[k := c];
    assert Trim(a) == a;
    var b :| IsAccount(a, b);
    EncodedLength(a, b);
    forall r: Validation | Verdict(t, r)
      ensures r.Invalid?
    {
      if r.Valid? {
        var d :| IsAccount(Trim(t), d);
        EncodedLength(Trim(t), d);
        assert Trim(t) == t by { TrimLength(t); }
        SubstitutedClash(a, t, k, b, d);
        assert false;
      }
    }
  }

  lemma TrimLength(s: string)
    ensures |Trim(s)| == |s| ==> Trim(s) == s
  {
  }

  lemma EncodedLength(a: string, b: seq<bv8>)
    requires IsAccount(a, b)
    ensures |a| == 56
  {
  }

  lemma SubstitutedClash(a: string, t: string, k: nat, b: seq<bv8>, d: seq<bv8>)
    requires IsAccount(a, b) && IsAccount(t, d) && |a| == |t| == 56 && k < 56
    requires a[..k] == t[..k] && a[k + 1..] == t[k + 1..]
    ensures a[k] == t[k]
  {
    hide Encodes, ChecksumMatches;
    if k <= 51 {
      PayloadSubstituted(a, t, k, b, d);
    } else if k == 52 {
      StraddleSubstituted(a, t, b, d);
    } else {
      ChecksumSubstituted(a, t, k, b, d);
    }
    EncodesIffEncode(a, b);
    EncodesIffEncode(t, d);
  }

  lemma SameChecksum(b: seq<bv8>, d: seq<bv8>)
    requires |b| == |d| == 35 && ChecksumMatches(b) && ChecksumMatches(d)
    ensures b[..33] == d[..33] ==> b == d
    ensures b[33] == d[33] && b[34] == d[34] ==> Crc(b[..33]) == Crc(d[..33])
  {
    hide LittleEndian, Wide, Crc, LowHalf, HighHalf;
    Halves(b[33], b[34], Crc(b[..33]));
    Halves(d[33], d[34], Crc(d[..33]));
    assert b == b[..33] + [b[33], b[34]] && d == d[..33] + [d[33], d[34]];
    if b[33] == d[33] && b[34] == d[34] {
      HalvesJoin(Crc(b[..33]));
      HalvesJoin(Crc(d[..33]));
      WideInjective(Crc(b[..33]), Crc(d[..33]));
    }
  }

  lemma WideInjective(c: bv16, d: bv16)
    requires Wide(c) == Wide(d)
    ensures c == d
  {
  }

  lemma PayloadSubstituted(a: string, t: string, k: nat, b: seq<bv8>, d: seq<bv8>)
    requires IsAccount(a, b) && IsAccount(t, d) && Substituted(a, t, k, b, d) && k <= 51
    ensures b == d
  {
    hide Encodes, ChecksumMatches, Crc, Substituted;
    var i := 5 * k / 8;
    forall m | 0 <= m < 35 && m != i && m != i + 1
      ensures b[m] == d[m]
    {
      ByteOutside(a, t, k, b, d, m);
    }
    SameChecksum(b, d);
    AdjacentChangeDetected(b[..33], d[..33], i);
  }

  lemma ChecksumSubstituted(a: string, t: string, k: nat, b: seq<bv8>, d: seq<bv8>)
    requires IsAccount(a, b) && IsAccount(t, d) && Substituted(a, t, k, b, d) && k >= 53
    ensures b == d
  {
    hide Encodes, ChecksumMatches, Substituted;
    forall m | 0 <= m < 33
      ensures b[m] == d[m]
    {
      ByteOutside(a, t, k, b, d, m);
    }
    assert b[..33] == d[..33];
    SameChecksum(b, d);
  }

  lemma StraddleSubstituted(a: string, t: string, b: seq<bv8>, d: seq<bv8>)
    requires IsAccount(a, b) && IsAccount(t, d) && Substituted(a, t, 52, b, d)
    ensures b == d
  {
    hide Encodes, Substituted, LittleEndian, Wide, Crc, LowHalf, HighHalf, Xor, Bits;
    forall m | 0 <= m < 35 && m != 32 && m != 33
      ensures b[m] == d[m]
    {
      ByteOutside(a, t, 52, b, d, m);
    }
    var p, q := b[..33], d[..33];
    assert p[..32] == q[..32];
    StraddlingPayload(a, t, b, d);
    TopNibbleSame(b[32] as bv32, d[32] as bv32);
    NibbleDifference(b[32], d[32]);
    StraddlingChecksum(a, t, b, d);
    LowSevenSame(b[33] as bv32, d[33] as bv32);
    Halves(b[33], b[34], Crc(p));
    Halves(d[33], d[34], Crc(q));
    TopBitDifference(Crc(p), Crc(q));
    LastNibbleChangeDetected(p, q);
    SameChecksum(b, d);
  }

  lemma NibbleDifference(x: bv8, y: bv8)
    requires ((x as bv32) >> 1 >> 1 >> 1 >> 1) & 0xf == ((y as bv32) >> 1 >> 1 >> 1 >> 1) & 0xf
    ensures (x ^ y) & 0xf0 == 0
  {
  }

  lemma TopBitDifference(c: bv16, d: bv16)
    requires ((LowHalf(c) as bv32) << 1) & 0xff == ((LowHalf(d) as bv32) << 1) & 0xff
    requires HighHalf(c) == HighHalf(d)
    ensures Xor(c, d) & 0xff7f == 0
  {
  }

  // --- the second validator ---

  /** The asset package's validator accepts exactly the strings the first one accepts as they stand. */
  method IsValidStellarAddress(address: string) returns (valid: bool)
    ensures valid <==> Verdict(address, Valid(address))
  {
    hide Encodes, ChecksumMatches, AllSymbols, LittleEndian, Wide, Crc, Trim, StringBits, ByteBits, IsSymbol;
    if |address| != 56 || address[0] != 'G' {
      if Verdict(address, Valid(address)) {
        var bytes :| IsAccount(address, bytes);
        StartsWithG(address, bytes);
      }
      return false;
    }
    var matches := MatchesPattern(address);
    if !matches {
      forall b ensures !Encodes(address, b) { NotAllSymbols(address, b); }
      return false;
    }
    var decoded := DecodeBase32Unmasked(address);
    var bytes := decoded.value;
    ExactDecode(address, bytes);
    forall b | Encodes(address, b) ensures b == bytes { UniqueBytes(address, b, bytes); }
    SymbolsNotTrimmed(address);
    if |bytes| != 35 {
      return false;
    }
    if bytes[0] != 48 {
      return false;
    }
    var payload := bytes[..33];
    var expectedChecksum := LittleEndian(bytes[33], bytes[34]);
    var computedChecksum := Crc16XModemUnmasked(payload);
    ChecksumIs(bytes);
    valid := expectedChecksum == computedChecksum;
    assert valid ==> IsAccount(address, bytes);
  }

  lemma StartsWithG(a: string, bytes: seq<bv8>)
    requires IsAccount(a, bytes)
    ensures |a| == 56 && a[0] == 'G'
  {
    hide StringBits, ByteBits, Bits, AllSymbols, Symbol, SymbolIndex;
    EncodedLength(a, bytes);
    FullBits(a, bytes);
    AroundChar(a, 0);
    ByteBitsAt(bytes, 0);
    assert StringBits(a)[0..5] == ByteBits(bytes)[0..8][..5];
    VersionSymbol(Symbol(a[0]));
    SymbolOfG();
    SymbolInjective(a[0], 'G');
  }

  lemma VersionSymbol(v: bv32)
    requires v < 32 && Bits(v, 5) == Bits(48, 8)[..5]
    ensures v == 6
  {
    hide Bits;
    PushSymbol(0, 6, 0);
    SplitFive();
    FiveBitsInjective(v, 6);
  }

  lemma SplitFive()
    ensures Bits(48, 8)[..5] == Bits(6, 5)
  {
    assert Bits(48, 8) == Bits(24, 7) + [false];
    assert Bits(24, 7) == Bits(12, 6) + [false];
    assert Bits(12, 6) == Bits(6, 5) + [false];
  }

  lemma SymbolOfG()
    ensures IsSymbol('G') && Symbol('G') == 6
  {
    hide SymbolIndex, Word;
    AlphabetAt(6);
    InAlphabet(6);
    WordSix();
  }

  lemma WordSix()
    ensures Word(6) == 6
  {
    SmallWord(6);
  }

  lemma ExactDecode(a: string, bytes: seq<bv8>)
    requires |a| == 56 && AllSymbols(a) && |bytes| == 5 * |a| / 8
    requires ByteBits(bytes) == StringBits(a)[..8 * |bytes|]
    ensures Encodes(a, bytes)
  {
    hide StringBits, ByteBits, AllSymbols;
    assert StringBits(a)[..280] == StringBits(a);
  }

  lemma SymbolsNotTrimmed(a: string)
    requires a != "" && AllSymbols(a)
    ensures Trim(a) == a
  {
    hide IsSymbol;
    PatternIsAlphabet(a[0]);
    PatternIsAlphabet(a[|a| - 1]);
  }
}
