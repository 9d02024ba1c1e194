/** Strings as sequences of 16-bit code units. */
module Utf16 {
  type Unit = n: int | 0 <= n < 65536

  type Text = seq<Unit>

  predicate IsHigh(u: Unit) { 0xD800 <= u < 0xDC00 }

  predicate IsLow(u: Unit) { 0xDC00 <= u < 0xE000 }

  predicate IsSurrogate(u: Unit) { 0xD800 <= u < 0xE000 }

  /** A text starts with a surrogate pair. */
  predicate StartsPair(s: Text) {
    |s| >= 2 && IsHigh(s[0]) && IsLow(s[1])
  }

  predicate Ascii(s: string) {
    forall i | 0 <= i < |s| :: s[i] as int < 128
  }

  function Units(s: string): (r: Text)
    requires Ascii(s)
    ensures |r| == |s| && forall i | 0 <= i < |r| :: r[i] == s[i] as int
  {
    seq(|s|, i requires 0 <= i < |s| => s[i] as int)
  }

  lemma UnitsInjective(a: string, b: string)
    requires Ascii(a) && Ascii(b) && Units(a) == Units(b)
    ensures a == b
  {
    forall i | 0 <= i < |a| ensures a[i] == b[i] {
      assert Units(a)[i] == Units(b)[i];
    }
  }

  /** The parts with a separator between neighbours. */
  function Join(parts: seq<Text>, separator: Unit): Text {
    if parts == [] then []
    else if |parts| == 1 then parts[0]
    else parts[0] + [separator] + Join(parts[1..], separator)
  }
}

/** Quoting of strings by section 7 of RFC 8259, as `JSON.stringify` does it. */
module JsonStrings {
  import opened Wrappers
  import opened Utf16

  const QUOTE: Unit := 34
  const BACKSLASH: Unit := 92
  const LETTER_U: Unit := 117

  function HexDigit(v: nat): Unit
    requires v < 16
  {
    if v < 10 then 48 + v else 87 + v
  }

  lemma HexDigitInjective(v: nat, w: nat)
    requires v < 16 && w < 16 && HexDigit(v) == HexDigit(w)
    ensures v == w
  {
  }

  /** Four digits, most significant first. */
  function Hex4(u: Unit): (r: Text)
    ensures |r| == 4
  {
    [HexDigit(u / 16 / 16 / 16), HexDigit(u / 16 / 16 % 16), HexDigit(u / 16 % 16), HexDigit(u % 16)]
  }

  lemma Hex4Injective(u: Unit, v: Unit)
    requires Hex4(u) == Hex4(v)
    ensures u == v
  {
    hide HexDigit;
    var a, b := u / 16, v / 16;
    assert Hex4(u)[0] == Hex4(v)[0] && Hex4(u)[1] == Hex4(v)[1];
    assert Hex4(u)[2] == Hex4(v)[2] && Hex4(u)[3] == Hex4(v)[3];
    HexDigitInjective(a / 16 / 16, b / 16 / 16);
    HexDigitInjective(a / 16 % 16, b / 16 % 16);
    HexDigitInjective(a % 16, b % 16);
    HexDigitInjective(u % 16, v % 16);
  }

  /** The letter of a two-character escape. */
  function ShortEscape(u: Unit): (r: Unit)
    ensures r == 0 || r == QUOTE || r == BACKSLASH || (98 <= r < LETTER_U && r != BACKSLASH)
  {
    if u == QUOTE then QUOTE
    else if u == BACKSLASH then BACKSLASH
    else if u == 8 then 98
    else if u == 9 then 116
    else if u == 10 then 110
    else if u == 12 then 102
    else if u == 13 then 114
    else 0
  }

  /** How many units the next chunk of a string covers. */
  function ChunkWidth(s: Text): (k: nat)
    requires s != []
    ensures 0 < k <= |s|
  {
    if StartsPair(s) then 2 else 1
  }

  /** A pair is kept; controls, quotes, backslashes and lone surrogates are escaped. */
  function Chunk(s: Text): (r: Text)
    requires s != []
    ensures r != [] && r[0] != QUOTE
  {
    if StartsPair(s) then s[..2]
    else if ShortEscape(s[0]) != 0 then [BACKSLASH, ShortEscape(s[0])]
    else if s[0] < 32 || IsSurrogate(s[0]) then [BACKSLASH, LETTER_U] + Hex4(s[0])
    else [s[0]]
  }

  function Escape(s: Text): Text {
    if s == [] then [] else Chunk(s) + Escape(s[ChunkWidth(s)..])
  }

  function Quote(s: Text): (r: Text)
    ensures |r| >= 2 && r[0] == QUOTE
  {
    [QUOTE] + Escape(s) + [QUOTE]
  }

  /** The length of a chunk can be read off its front. */
  function ReadWidth(text: Text): nat {
    if text == [] then 0
    else if text[0] == BACKSLASH then (if |text| > 1 && text[1] == LETTER_U then 6 else 2)
    else if IsHigh(text[0]) then 2 else 1
  }

  lemma ChunkReads(s: Text, x: Text)
    requires s != []
    ensures ReadWidth(Chunk(s) + x) == |Chunk(s)|
  {
  }

  lemma ChunkInjective(s: Text, x: Text, t: Text, y: Text)
    requires s != [] && t != [] && Chunk(s) + x == Chunk(t) + y
    ensures s[..ChunkWidth(s)] == t[..ChunkWidth(t)] && x == y
  {
    ChunkReads(s, x);
    ChunkReads(t, y);
    var k := |Chunk(s)|;
    assert Chunk(s) == (Chunk(s) + x)[..k] == (Chunk(t) + y)[..k] == Chunk(t);
    assert x == (Chunk(s) + x)[k..] == (Chunk(t) + y)[k..] == y;
    SameChunk(s, t);
  }

  lemma SameChunk(s: Text, t: Text)
    requires s != [] && t != [] && Chunk(s) == Chunk(t)
    ensures s[..ChunkWidth(s)] == t[..ChunkWidth(t)]
  {
    if |Chunk(s)| == 6 {
      assert Chunk(s)[2..] == Hex4(s[0]) && Chunk(t)[2..] == Hex4(t[0]);
      Hex4Injective(s[0], t[0]);
    } else if Chunk(s)[0] == BACKSLASH {
      assert Chunk(s)[1] == ShortEscape(s[0]) && Chunk(t)[1] == ShortEscape(t[0]);
    } else if |Chunk(s)| == 2 {
      assert Chunk(s) == s[..2] && Chunk(t) == t[..2];
    } else {
      assert Chunk(s)[0] == s[0] && Chunk(t)[0] == t[0];
    }
  }

  lemma EscapeStarts(s: Text, x: Text)
    ensures (Escape(s) + [QUOTE] + x)[0] == QUOTE <==> s == []
  {
    hide Chunk;
    if s != [] {
      assert (Escape(s) + [QUOTE] + x)[0] == Chunk(s)[0];
    }
  }

  /** A quoted string ends where it seems to, and tells which string it was. */
  lemma {:induction false} EscapeInjective(s: Text, x: Text, t: Text, y: Text)
    requires Escape(s) + [QUOTE] + x == Escape(t) + [QUOTE] + y
    ensures s == t && x == y
    decreases |s| + |t|
  {
    hide Chunk;
    EscapeStarts(s, x);
    EscapeStarts(t, y);
    if s == [] {
      assert (Escape(s) + [QUOTE] + x)[1..] == x && (Escape(t) + [QUOTE] + y)[1..] == y;
    } else {
      var s', t' := s[ChunkWidth(s)..], t[ChunkWidth(t)..];
      assert Escape(s) + [QUOTE] + x == Chunk(s) + (Escape(s') + [QUOTE] + x);
      assert Escape(t) + [QUOTE] + y == Chunk(t) + (Escape(t') + [QUOTE] + y);
      ChunkInjective(s, Escape(s') + [QUOTE] + x, t, Escape(t') + [QUOTE] + y);
      EscapeInjective(s', x, t', y);
      assert s == s[..ChunkWidth(s)] + s' && t == t[..ChunkWidth(t)] + t';
    }
  }

  // --- reading a string back by section 7 of RFC 8259 ---

  /** The value of a hexadecimal digit, in either case. */
  function HexValue(u: Unit): Option<nat> {
    if 48 <= u < 58 then Some(u - 48)
    else if 97 <= u < 103 then Some(u - 87)
    else if 65 <= u < 71 then Some(u - 55)
    else None
  }

  /** What the letter after a backslash stands for. */
  function ShortMeaning(u: Unit): Option<Unit> {
    if u == QUOTE || u == BACKSLASH || u == 47 then Some(u)
    else if u == 98 then Some(8)
    else if u == 102 then Some(12)
    else if u == 110 then Some(10)
    else if u == 114 then Some(13)
    else if u == 116 then Some(9)
    else None
  }

  function FourHex(t: Text): (r: Option<Unit>)
    requires |t| == 4
  {
    var a, b, c, d := HexValue(t[0]), HexValue(t[1]), HexValue(t[2]), HexValue(t[3]);
    if a.None? || b.None? || c.None? || d.None? then None
    else
      var v := ((a.value * 16 + b.value) * 16 + c.value) * 16 + d.value;
      if v < 65536 then Some(v) else None
  }

  function Prepend(u: Unit, rest: Option<Text>): Option<Text> {
    if rest.Some? then Some([u] + rest.value) else None
  }

  /** The string that the text between two quotes stands for, if it stands for any. */
  function Unescape(t: Text): Option<Text>
    decreases |t|
  {
    if t == [] then Some([])
    else if t[0] == BACKSLASH then
      if |t| < 2 then None
      else if t[1] == LETTER_U then
        if |t| < 6 || FourHex(t[2..6]).None? then None else Prepend(FourHex(t[2..6]).value, Unescape(t[6..]))
      else if ShortMeaning(t[1]).None? then None
      else Prepend(ShortMeaning(t[1]).value, Unescape(t[2..]))
    else if t[0] < 32 || t[0] == QUOTE then None
    else Prepend(t[0], Unescape(t[1..]))
  }

  lemma HexDigitReads(v: nat)
    requires v < 16
    ensures HexValue(HexDigit(v)) == Some(v)
  {
  }

  lemma Hex4Reads(u: Unit)
    ensures FourHex(Hex4(u)) == Some(u)
  {
    hide HexDigit, HexValue;
    HexDigitReads(u / 16 / 16 / 16);
    HexDigitReads(u / 16 / 16 % 16);
    HexDigitReads(u / 16 % 16);
    HexDigitReads(u % 16);
    Recomposed(u);
  }

  lemma Recomposed(u: nat)
    ensures ((u / 16 / 16 / 16 * 16 + u / 16 / 16 % 16) * 16 + u / 16 % 16) * 16 + u % 16 == u
  {
  }

  lemma PlainReads(u: Unit, x: Text)
    requires u >= 32 && u != QUOTE && u != BACKSLASH
    ensures Unescape([u] + x) == Prepend(u, Unescape(x))
  {
    assert ([u] + x)[1..] == x;
  }

  lemma ChunkReadsBack(s: Text, x: Text)
    requires s != [] && Unescape(x).Some?
    ensures Unescape(Chunk(s) + x) == Some(s[..ChunkWidth(s)] + Unescape(x).value)
  {
    if StartsPair(s) {
      hide Unescape;
      PlainReads(s[1], x);
      PlainReads(s[0], [s[1]] + x);
      assert s[..2] + x == [s[0]] + ([s[1]] + x);
      assert s[..2] + Unescape(x).value == [s[0]] + ([s[1]] + Unescape(x).value);
    } else {
      assert s[..1] == [s[0]];
      assert Prepend(s[0], Unescape(x)) == Some(s[..1] + Unescape(x).value);
      if ShortEscape(s[0]) != 0 {
        ShortReads(s[0], x);
      } else if s[0] < 32 || IsSurrogate(s[0]) {
        HexReads(s[0], x);
      } else {
        PlainReads(s[0], x);
      }
      hide Unescape;
    }
  }

  lemma ShortReads(u: Unit, x: Text)
    requires ShortEscape(u) != 0
    ensures Unescape([BACKSLASH, ShortEscape(u)] + x) == Prepend(u, Unescape(x))
  {
    assert ([BACKSLASH, ShortEscape(u)] + x)[2..] == x;
  }

  lemma HexReads(u: Unit, x: Text)
    ensures Unescape([BACKSLASH, LETTER_U] + Hex4(u) + x) == Prepend(u, Unescape(x))
  {
    Hex4Reads(u);
    hide Hex4, FourHex;
    var t := [BACKSLASH, LETTER_U] + Hex4(u) + x;
    assert t[6..] == x && t[2..6] == Hex4(u);
  }

  /** Reading an escaped string back gives the string. */
  lemma {:induction false} UnescapeEscape(s: Text)
    ensures Unescape(Escape(s)) == Some(s)
    decreases |s|
  {
    if s != [] {
      hide Chunk, Unescape;
      var rest := s[ChunkWidth(s)..];
      UnescapeEscape(rest);
      ChunkReadsBack(s, Escape(rest));
      assert s == s[..ChunkWidth(s)] + rest;
    }
  }

  /** What need not be escaped is not. */
  lemma {:induction false} PlainStays(s: Text)
    requires forall i | 0 <= i < |s| :: s[i] >= 32 && s[i] != QUOTE && s[i] != BACKSLASH && !IsSurrogate(s[i])
    ensures Escape(s) == s
    decreases |s|
  {
    if s != [] { PlainStays(s[1..]); }
  }

  /** A surrogate on its own is escaped by its number, a pair of them is kept. */
  lemma SurrogatesEscaped(a: Unit, b: Unit)
    ensures 0xD800 <= a <= 0xDFFF ==> Escape([a]) == Units("\\u") + Hex4(a)
    ensures 0xD800 <= a <= 0xDBFF && 0xDC00 <= b <= 0xDFFF ==> Escape([a, b]) == [a, b]
    ensures !(0xD800 <= a <= 0xDBFF && 0xDC00 <= b <= 0xDFFF) ==> Escape([a, b]) == Escape([a]) + Escape([b])
    ensures a >= 32 && a != QUOTE && a != BACKSLASH && !(0xD800 <= a <= 0xDFFF) ==> Escape([a]) == [a]
  {
    hide Hex4;
    assert Units("\\u") == [BACKSLASH, LETTER_U];
    EscapeOne(a);
    EscapeOne(b);
    EscapeTwo(a, b);
  }

  lemma EscapeOne(a: Unit)
    ensures Escape([a]) == Chunk([a]) && (Chunk([a]) == [a] || !StartsPair([a]))
  {
    hide Chunk;
    assert [a][1..] == [];
  }

  lemma EscapeTwo(a: Unit, b: Unit)
    ensures Escape([a, b]) == if IsHigh(a) && IsLow(b) then [a, b] else Chunk([a]) + Escape([b])
  {
    if IsHigh(a) && IsLow(b) {
      assert [a, b][..2] == [a, b] && [a, b][2..] == [];
    } else {
      assert Chunk([a, b]) == Chunk([a]) && [a, b][1..] == [b];
    }
    hide Chunk;
  }

  lemma QuoteInjective(s: Text, x: Text, t: Text, y: Text)
    requires Quote(s) + x == Quote(t) + y
    ensures s == t && x == y
  {
    hide Escape;
    assert Quote(s) + x == [QUOTE] + (Escape(s) + [QUOTE] + x);
    assert Quote(t) + y == [QUOTE] + (Escape(t) + [QUOTE] + y);
    assert ([QUOTE] + (Escape(s) + [QUOTE] + x))[1..] == Escape(s) + [QUOTE] + x;
    assert ([QUOTE] + (Escape(t) + [QUOTE] + y))[1..] == Escape(t) + [QUOTE] + y;
    EscapeInjective(s, x, t, y);
  }
}

/** Normal forms of payloads and the text each of them has. */
module JsonTexts {
  import opened Utf16
  import opened JsonStrings

  const COMMA: Unit := 44
  const COLON: Unit := 58
  const LEFT_BRACKET: Unit := 91
  const RIGHT_BRACKET: Unit := 93
  const LEFT_BRACE: Unit := 123
  const RIGHT_BRACE: Unit := 125

  /** What a number is printed with: digits, sign, point and exponent. */
  predicate IsNumeric(u: Unit) {
    48 <= u < 58 || u == 45 || u == 43 || u == 46 || u == 101
  }

  predicate IsNumberText(s: Text) {
    s != [] && (48 <= s[0] < 58 || s[0] == 45) && forall i | 0 <= i < |s| :: IsNumeric(s[i])
  }

  /** A finite number other than minus zero, as its shortest decimal text. */
  type NumberText = s: Text | IsNumberText(s) witness [48]

  /** A hole is an array slot that was never assigned. */
  datatype Normal =
    | Null
    | Bool(value: bool)
    | Number(digits: NumberText)
    | String(text: Text)
    | Array(items: seq<Normal>)
    | Object(entries: seq<Entry>)
    | Hole

  datatype Entry = Entry(key: Text, value: Normal)

  /** Holes stand in arrays only, and a lone one does not tell its array from the empty array. */
  predicate IsNormal(n: Normal) {
    match n
    case Array(items) => items != [Hole] && forall i | 0 <= i < |items| :: items[i].Hole? || IsNormal(items[i])
    case Object(entries) => forall i | 0 <= i < |entries| :: IsNormal(entries[i].value)
    case Hole => false
    case _ => true
  }

  type NormalForm = n: Normal | IsNormal(n) witness Null

  function NormalText(n: Normal): Text {
    match n
    case Null => [110, 117, 108, 108]
    case Bool(b) => if b then [116, 114, 117, 101] else [102, 97, 108, 115, 101]
    case Number(digits) => digits
    case String(text) => Quote(text)
    case Array(items) =>
      [LEFT_BRACKET] + Join(seq(|items|, i requires 0 <= i < |items| => NormalText(items[i])), COMMA) + [RIGHT_BRACKET]
    case Object(entries) =>
      [LEFT_BRACE] +
      Join(seq(|entries|, i requires 0 <= i < |entries| =>
                 Quote(entries[i].key) + [COLON] + NormalText(entries[i].value)), COMMA) +
      [RIGHT_BRACE]
    case Hole => []
  }

  function ItemTexts(items: seq<Normal>): (ts: seq<Text>)
    ensures |ts| == |items|
  {
    seq(|items|, i requires 0 <= i < |items| => NormalText(items[i]))
  }

  function EntryText(e: Entry): Text {
    Quote(e.key) + [COLON] + NormalText(e.value)
  }

  function EntryTexts(entries: seq<Entry>): (ts: seq<Text>)
    ensures |ts| == |entries|
  {
    seq(|entries|, i requires 0 <= i < |entries| => EntryText(entries[i]))
  }

  lemma ListTexts(n: Normal)
    ensures n.Array? ==> NormalText(n) == [LEFT_BRACKET] + Join(ItemTexts(n.items), COMMA) + [RIGHT_BRACKET]
    ensures n.Object? ==> NormalText(n) == [LEFT_BRACE] + Join(EntryTexts(n.entries), COMMA) + [RIGHT_BRACE]
  {
    if n.Array? {
      assert ItemTexts(n.items) ==
             seq(|n.items|, i requires 0 <= i < |n.items| => NormalText(n.items[i]));
    } else if n.Object? {
      assert EntryTexts(n.entries) ==
             seq(|n.entries|, i requires 0 <= i < |n.entries| =>
                   Quote(n.entries[i].key) + [COLON] + NormalText(n.entries[i].value));
    }
  }

  /** The texts of the constants and of the empty lists. */
  lemma ConstantsSpelled()
    ensures NormalText(Null) == Units("null")
    ensures NormalText(Bool(true)) == Units("true") && NormalText(Bool(false)) == Units("false")
    ensures NormalText(Array([])) == Units("[]") && NormalText(Object([])) == Units("{}")
  {
    EmptyLists();
  }

  /** How a list is put together. */
  lemma ArraySpelled(a: Normal, b: Normal)
    ensures NormalText(Array([a])) == Units("[") + NormalText(a) + Units("]")
    ensures NormalText(Array([a, b])) == Units("[") + (NormalText(a) + Units(",") + NormalText(b)) + Units("]")
  {
    hide NormalText;
    Marks();
    ListTexts(Array([a]));
    assert ItemTexts([a]) == [NormalText(a)];
    ListTexts(Array([a, b]));
    TwoItems(a, b);
  }

  /** How a record is put together. */
  lemma ObjectSpelled(a: Normal, b: Normal, k: Text, l: Text)
    ensures NormalText(Object([Entry(k, a)])) == Units("{") + (Quoted(k) + Units(":") + NormalText(a)) + Units("}")
    ensures NormalText(Object([Entry(k, a), Entry(l, b)])) ==
              Units("{") + (Quoted(k) + Units(":") + NormalText(a) + Units(",") +
                            (Quoted(l) + Units(":") + NormalText(b))) + Units("}")
  {
    hide NormalText, Quote, Quoted;
    Marks();
    QuoteSpelled(k);
    QuoteSpelled(l);
    ListTexts(Object([Entry(k, a)]));
    assert EntryTexts([Entry(k, a)]) == [EntryText(Entry(k, a))];
    ListTexts(Object([Entry(k, a), Entry(l, b)]));
    TwoEntries(Entry(k, a), Entry(l, b));
  }

  lemma Marks()
    ensures Units("[") == [91] && Units(",") == [44] && Units("]") == [93] && Units(":") == [58]
    ensures Units("{") == [123] && Units("}") == [125]
  {
  }

  /** An escaped string between double quotes. */
  function Quoted(k: Text): Text {
    Units("\"") + Escape(k) + Units("\"")
  }

  lemma QuoteSpelled(k: Text)
    ensures Quote(k) == Quoted(k) == NormalText(String(k))
  {
    hide Escape;
    assert Units("\"") == [34];
  }

  lemma EmptyLists()
    ensures NormalText(Array([])) == [91, 93] && NormalText(Object([])) == [123, 125]
  {
    ListTexts(Array([]));
    ListTexts(Object([]));
  }

  lemma JoinTwo(x: Text, y: Text)
    ensures Join([x, y], COMMA) == x + [44] + y
  {
    assert [x, y][1..] == [y];
  }

  lemma TwoItems(a: Normal, b: Normal)
    ensures Join(ItemTexts([a, b]), COMMA) == NormalText(a) + [44] + NormalText(b)
  {
    hide NormalText;
    JoinTwo(NormalText(a), NormalText(b));
    assert ItemTexts([a, b]) == [NormalText(a), NormalText(b)];
  }

  lemma TwoEntries(e: Entry, f: Entry)
    ensures Join(EntryTexts([e, f]), COMMA) ==
              Quote(e.key) + [58] + NormalText(e.value) + [44] + (Quote(f.key) + [58] + NormalText(f.value))
  {
    hide NormalText, Quote;
    JoinTwo(EntryText(e), EntryText(f));
    assert EntryTexts([e, f]) == [EntryText(e), EntryText(f)];
  }

  // --- reading a text back ---

  predicate IsDelimiter(u: Unit) {
    u == COMMA || u == RIGHT_BRACKET || u == RIGHT_BRACE
  }

  predicate Delimited(x: Text) {
    x == [] || IsDelimiter(x[0])
  }

  datatype Kind = IsNull | IsTrue | IsFalse | IsNumber | IsString | IsArray | IsObject | IsHole

  function KindOf(n: Normal): Kind {
    match n
    case Null => IsNull
    case Bool(b) => if b then IsTrue else IsFalse
    case Number(_) => IsNumber
    case String(_) => IsString
    case Array(_) => IsArray
    case Object(_) => IsObject
    case Hole => IsHole
  }

  function ReadKind(text: Text): Kind {
    if Delimited(text) then IsHole
    else if text[0] == 110 then IsNull
    else if text[0] == 116 then IsTrue
    else if text[0] == 102 then IsFalse
    else if text[0] == QUOTE then IsString
    else if text[0] == LEFT_BRACKET then IsArray
    else if text[0] == LEFT_BRACE then IsObject
    else IsNumber
  }

  lemma KindIsRead(n: Normal, x: Text)
    requires Delimited(x)
    ensures ReadKind(NormalText(n) + x) == KindOf(n)
  {
    hide Quote, Join;
    ListTexts(n);
    if n != Hole {
      assert (NormalText(n) + x)[0] == NormalText(n)[0];
    }
  }

  lemma NumberEnds(d: NumberText, x: Text, e: NumberText, y: Text)
    requires Delimited(x) && Delimited(y) && d + x == e + y
    ensures |d| >= |e|
  {
    assert (d + x)[..|d|] == d;
  }

  lemma Split<T>(a: seq<T>, x: seq<T>, b: seq<T>, y: seq<T>)
    requires a + x == b + y && |a| == |b|
    ensures a == b && x == y
  {
    assert a == (a + x)[..|a|] && b == (b + y)[..|a|];
    assert x == (a + x)[|a|..] && y == (b + y)[|a|..];
  }

  /** What follows an item of a list: a comma and more, or the end. */
  function After(ts: seq<Text>, close: Unit, x: Text): Text
    requires ts != []
  {
    if |ts| == 1 then [close] + x else [COMMA] + (Join(ts[1..], COMMA) + [close] + x)
  }

  lemma JoinHead(ts: seq<Text>, close: Unit, x: Text)
    requires ts != []
    ensures Join(ts, COMMA) + [close] + x == ts[0] + After(ts, close, x)
  {
  }

  lemma AfterInjective(ts: seq<Text>, us: seq<Text>, close: Unit, x: Text, y: Text)
    requires ts != [] && us != [] && close != COMMA && After(ts, close, x) == After(us, close, y)
    ensures |ts| == 1 <==> |us| == 1
    ensures |ts| == 1 ==> x == y
    ensures |ts| > 1 ==> Join(ts[1..], COMMA) + [close] + x == Join(us[1..], COMMA) + [close] + y
  {
    assert After(ts, close, x)[0] == After(us, close, y)[0];
    assert After(ts, close, x)[1..] == if |ts| == 1 then x else Join(ts[1..], COMMA) + [close] + x;
    assert After(us, close, y)[1..] == if |us| == 1 then y else Join(us[1..], COMMA) + [close] + y;
  }

  ghost predicate IsItem(n: Normal) {
    n.Hole? || IsNormal(n)
  }

  /** A text that a delimiter follows tells its normal form and where it ends. */
  lemma {:induction false} TextInjective(n: Normal, x: Text, m: Normal, y: Text)
    requires IsItem(n) && IsItem(m) && Delimited(x) && Delimited(y) && NormalText(n) + x == NormalText(m) + y
    ensures n == m && x == y
    decreases |NormalText(n) + x|, 0
  {
    hide Quote, Join, Delimited;
    KindIsRead(n, x);
    KindIsRead(m, y);
    ListTexts(n);
    ListTexts(m);
    match n
    case Number(digits) =>
      NumberEnds(digits, x, m.digits, y);
      NumberEnds(m.digits, y, digits, x);
      Split(digits, x, m.digits, y);
    case String(text) =>
      QuoteInjective(text, x, m.text, y);
    case Array(items) =>
      var l, r := Join(ItemTexts(items), COMMA), Join(ItemTexts(m.items), COMMA);
      assert NormalText(n) + x == [LEFT_BRACKET] + (l + [RIGHT_BRACKET] + x);
      assert NormalText(m) + y == [LEFT_BRACKET] + (r + [RIGHT_BRACKET] + y);
      Split([LEFT_BRACKET], l + [RIGHT_BRACKET] + x, [LEFT_BRACKET], r + [RIGHT_BRACKET] + y);
      ItemsInjective(items, x, m.items, y);
    case Object(entries) =>
      var l, r := Join(EntryTexts(entries), COMMA), Join(EntryTexts(m.entries), COMMA);
      assert NormalText(n) + x == [LEFT_BRACE] + (l + [RIGHT_BRACE] + x);
      assert NormalText(m) + y == [LEFT_BRACE] + (r + [RIGHT_BRACE] + y);
      Split([LEFT_BRACE], l + [RIGHT_BRACE] + x, [LEFT_BRACE], r + [RIGHT_BRACE] + y);
      EntriesInjective(entries, x, m.entries, y);
    case _ =>
      Split(NormalText(n), x, NormalText(m), y);
  }

  ghost predicate AreItems(items: seq<Normal>) {
    items != [Hole] && forall i | 0 <= i < |items| :: IsItem(items[i])
  }

  lemma {:induction false} ItemsInjective(items: seq<Normal>, x: Text, others: seq<Normal>, y: Text)
    requires AreItems(items) && AreItems(others)
    requires Join(ItemTexts(items), COMMA) + [RIGHT_BRACKET] + x == Join(ItemTexts(others), COMMA) + [RIGHT_BRACKET] + y
    ensures items == others && x == y
    decreases |Join(ItemTexts(items), COMMA) + [RIGHT_BRACKET] + x|, 2
  {
    hide NormalText, IsItem;
    ItemsEmpty(items, x);
    ItemsEmpty(others, y);
    if items == [] {
      assert (Join(ItemTexts(items), COMMA) + [RIGHT_BRACKET] + x)[1..] == x;
      assert (Join(ItemTexts(others), COMMA) + [RIGHT_BRACKET] + y)[1..] == y;
    } else {
      MoreItemsInjective(items, x, others, y);
    }
  }

  /** Only the empty list closes at once. */
  lemma ItemsEmpty(items: seq<Normal>, x: Text)
    requires AreItems(items)
    ensures (Join(ItemTexts(items), COMMA) + [RIGHT_BRACKET] + x)[0] == RIGHT_BRACKET <==> items == []
  {
    hide Quote, Join;
    if items != [] {
      var ts := ItemTexts(items);
      JoinHead(ts, RIGHT_BRACKET, x);
      KindIsRead(items[0], After(ts, RIGHT_BRACKET, x));
    } else {
      EmptyJoin();
    }
  }

  lemma {:induction false} MoreItemsInjective(items: seq<Normal>, x: Text, others: seq<Normal>, y: Text)
    requires items != [] && others != []
    requires forall i | 0 <= i < |items| :: IsItem(items[i])
    requires forall i | 0 <= i < |others| :: IsItem(others[i])
    requires Join(ItemTexts(items), COMMA) + [RIGHT_BRACKET] + x == Join(ItemTexts(others), COMMA) + [RIGHT_BRACKET] + y
    ensures items == others && x == y
    decreases |Join(ItemTexts(items), COMMA) + [RIGHT_BRACKET] + x|, 1
  {
    hide NormalText, IsItem, Join;
    var ts, us := ItemTexts(items), ItemTexts(others);
    JoinHead(ts, RIGHT_BRACKET, x);
    JoinHead(us, RIGHT_BRACKET, y);
    TextInjective(items[0], After(ts, RIGHT_BRACKET, x), others[0], After(us, RIGHT_BRACKET, y));
    AfterInjective(ts, us, RIGHT_BRACKET, x, y);
    if |items| > 1 {
      assert ts[1..] == ItemTexts(items[1..]) && us[1..] == ItemTexts(others[1..]);
      MoreItemsInjective(items[1..], x, others[1..], y);
    }
    assert items == [items[0]] + items[1..] && others == [others[0]] + others[1..];
  }

  predicate AreEntries(entries: seq<Entry>) {
    forall i | 0 <= i < |entries| :: IsNormal(entries[i].value)
  }

  lemma EntriesEmpty(entries: seq<Entry>, x: Text)
    ensures (Join(EntryTexts(entries), COMMA) + [RIGHT_BRACE] + x)[0] == RIGHT_BRACE <==> entries == []
  {
    hide NormalText, Join, Quote;
    if entries != [] {
      JoinHead(EntryTexts(entries), RIGHT_BRACE, x);
      assert EntryText(entries[0])[0] == QUOTE;
    } else {
      EmptyJoin();
    }
  }

  lemma EmptyJoin()
    ensures Join([], COMMA) == []
  {
  }

  lemma {:induction false} EntriesInjective(entries: seq<Entry>, x: Text, others: seq<Entry>, y: Text)
    requires AreEntries(entries) && AreEntries(others)
    requires Join(EntryTexts(entries), COMMA) + [RIGHT_BRACE] + x == Join(EntryTexts(others), COMMA) + [RIGHT_BRACE] + y
    ensures entries == others && x == y
    decreases |Join(EntryTexts(entries), COMMA) + [RIGHT_BRACE] + x|, 1
  {
    hide NormalText, IsNormal, Join, Quote;
    EntriesEmpty(entries, x);
    EntriesEmpty(others, y);
    EmptyJoin();
    if entries == [] {
      assert (Join(EntryTexts(entries), COMMA) + [RIGHT_BRACE] + x)[1..] == x;
      assert (Join(EntryTexts(others), COMMA) + [RIGHT_BRACE] + y)[1..] == y;
    } else {
      var ts, us := EntryTexts(entries), EntryTexts(others);
      JoinHead(ts, RIGHT_BRACE, x);
      JoinHead(us, RIGHT_BRACE, y);
      EntryInjective(entries[0], After(ts, RIGHT_BRACE, x), others[0], After(us, RIGHT_BRACE, y));
      AfterInjective(ts, us, RIGHT_BRACE, x, y);
      if |entries| > 1 {
        assert ts[1..] == EntryTexts(entries[1..]) && us[1..] == EntryTexts(others[1..]);
        EntriesInjective(entries[1..], x, others[1..], y);
      }
      assert entries == [entries[0]] + entries[1..] && others == [others[0]] + others[1..];
    }
  }

  lemma {:induction false} EntryInjective(e: Entry, x: Text, f: Entry, y: Text)
    requires IsNormal(e.value) && IsNormal(f.value) && Delimited(x) && Delimited(y)
    requires EntryText(e) + x == EntryText(f) + y
    ensures e == f && x == y
    decreases |EntryText(e) + x|, 0
  {
    hide NormalText, IsNormal, Quote;
    var v, w := NormalText(e.value) + x, NormalText(f.value) + y;
    assert EntryText(e) + x == Quote(e.key) + ([COLON] + v);
    assert EntryText(f) + y == Quote(f.key) + ([COLON] + w);
    QuoteInjective(e.key, [COLON] + v, f.key, [COLON] + w);
    Split([COLON], v, [COLON], w);
    TextInjective(e.value, x, f.value, y);
  }

  /** Two normal forms with one text are one normal form. */
  lemma NormalTextInjective(n: Normal, m: Normal)
    requires IsNormal(n) && IsNormal(m) && NormalText(n) == NormalText(m)
    ensures n == m
  {
    hide NormalText;
    assert NormalText(n) + [] == NormalText(n) && NormalText(m) + [] == NormalText(m);
    TextInjective(n, [], m, []);
  }
}
