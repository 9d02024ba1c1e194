/** Length-prefixed framing, and what encoding as UTF-8 does to a text. */
module Framing {
  import opened Utf16
  import opened Decimal

  const COLON: Unit := 58
  const BAR: Unit := 124
  const REPLACEMENT: Unit := 0xFFFD

  // --- lone surrogates ---

  /** A surrogate outside a pair has no UTF-8 form and is encoded as the replacement character. */
  function ToWellFormed(s: Text): (r: Text)
    ensures |r| == |s|
  {
    if s == [] then []
    else if StartsPair(s) then s[..2] + ToWellFormed(s[2..])
    else [if IsSurrogate(s[0]) then REPLACEMENT else s[0]] + ToWellFormed(s[1..])
  }

  predicate IsWellFormed(s: Text) {
    ToWellFormed(s) == s
  }

  predicate PairAcross(a: Text, b: Text) {
    a != [] && b != [] && IsHigh(a[|a| - 1]) && IsLow(b[0])
  }

  lemma PairInFront(a: Text, b: Text)
    requires a != [] && !PairAcross(a, b)
    ensures StartsPair(a + b) <==> StartsPair(a)
  {
    assert StartsPair(a) ==> (a + b)[..2] == a[..2];
    assert (a + b)[0] == a[0] && (|a| > 1 ==> (a + b)[1] == a[1]);
  }

  lemma {:induction false} WellFormedParts(a: Text, b: Text)
    requires !PairAcross(a, b)
    ensures ToWellFormed(a + b) == ToWellFormed(a) + ToWellFormed(b)
  {
    if a == [] {
      assert a + b == b;
    } else {
      hide IsSurrogate, IsHigh, IsLow;
      var k := if StartsPair(a) then 2 else 1;
      PairInFront(a, b);
      assert (a + b)[k..] == a[k..] + b && (a + b)[..k] == a[..k];
      WellFormedParts(a[k..], b);
    }
  }

  /** Well-formed text does not end in the middle of a pair. */
  lemma {:induction false} WellFormedEnds(a: Text)
    requires IsWellFormed(a) && a != []
    ensures !IsHigh(a[|a| - 1])
  {
    var k := if StartsPair(a) then 2 else 1;
    assert ToWellFormed(a)[k..] == ToWellFormed(a[k..]);
    assert ToWellFormed(a)[0] == a[0];
    if |a| > k { WellFormedEnds(a[k..]); }
  }

  lemma WellFormedConcat(a: Text, b: Text)
    requires IsWellFormed(a) && IsWellFormed(b)
    ensures IsWellFormed(a + b)
  {
    if a != [] { WellFormedEnds(a); }
    WellFormedParts(a, b);
  }

  lemma {:induction false} PlainIsWellFormed(s: Text)
    requires forall i | 0 <= i < |s| :: !IsSurrogate(s[i])
    ensures IsWellFormed(s)
  {
    if s != [] { PlainIsWellFormed(s[1..]); }
  }

  // --- frames ---

  function Digits(n: nat): (r: Text)
    ensures r != [] && forall i | 0 <= i < |r| :: 48 <= r[i] < 58
  {
    assert Ascii(NatText(n));
    Units(NatText(n))
  }

  lemma DigitsInjective(n: nat, m: nat)
    requires Digits(n) == Digits(m)
    ensures n == m
  {
    UnitsInjective(NatText(n), NatText(m));
    NatTextInjective(n, m);
  }

  function Framed(part: Text): Text {
    Digits(|part|) + [COLON] + part
  }

  /** `parts.map((part) => length:part).join("|")` */
  function Frame(parts: seq<Text>): Text {
    if parts == [] then []
    else if |parts| == 1 then Framed(parts[0])
    else Framed(parts[0]) + [BAR] + Frame(parts[1..])
  }

  lemma DigitsEnd(d: Text, x: Text, e: Text, y: Text)
    requires forall i | 0 <= i < |d| :: d[i] != COLON
    requires forall i | 0 <= i < |e| :: e[i] != COLON
    requires d + [COLON] + x == e + [COLON] + y
    ensures d == e && x == y
  {
    var s, t := d + [COLON] + x, e + [COLON] + y;
    assert s[|d|] == COLON && t[|e|] == COLON;
    assert |d| == |e|;
    assert d == s[..|d|] && e == t[..|d|];
    assert x == s[|d| + 1..] && y == t[|d| + 1..];
  }

  /** The length in front says where a part ends, whatever it contains. */
  lemma FramedEnds(p: Text, x: Text, q: Text, y: Text)
    requires Framed(p) + x == Framed(q) + y
    ensures p == q && x == y
  {
    assert Framed(p) + x == Digits(|p|) + [COLON] + (p + x);
    assert Framed(q) + y == Digits(|q|) + [COLON] + (q + y);
    DigitsEnd(Digits(|p|), p + x, Digits(|q|), q + y);
    DigitsInjective(|p|, |q|);
    assert p == (p + x)[..|p|] && q == (q + y)[..|p|];
    assert x == (p + x)[|p|..] && y == (q + y)[|p|..];
  }

  /** Distinct lists of parts have distinct frames, whatever the parts contain. */
  lemma {:induction false} FrameInjective(ps: seq<Text>, qs: seq<Text>)
    requires Frame(ps) == Frame(qs)
    ensures ps == qs
    decreases |ps| + |qs|
  {
    hide Framed;
    if ps == [] || qs == [] {
      assert ps == [] && qs == [] by { FramedNonEmpty(ps); FramedNonEmpty(qs); }
    } else {
      var x := if |ps| == 1 then [] else [BAR] + Frame(ps[1..]);
      var y := if |qs| == 1 then [] else [BAR] + Frame(qs[1..]);
      assert Frame(ps) == Framed(ps[0]) + x && Frame(qs) == Framed(qs[0]) + y;
      FramedEnds(ps[0], x, qs[0], y);
      if |ps| > 1 {
        assert x[1..] == Frame(ps[1..]) && y[1..] == Frame(qs[1..]);
        FrameInjective(ps[1..], qs[1..]);
      }
      assert ps == [ps[0]] + ps[1..] && qs == [qs[0]] + qs[1..];
    }
  }

  lemma FramedNonEmpty(ps: seq<Text>)
    ensures Frame(ps) == [] <==> ps == []
  {
    if ps != [] { assert |Framed(ps[0])| > 0; }
  }

  function WellFormedAll(ps: seq<Text>): (r: seq<Text>)
    ensures |r| == |ps|
  {
    seq(|ps|, i requires 0 <= i < |ps| => ToWellFormed(ps[i]))
  }

  lemma FramedWellFormed(p: Text)
    ensures ToWellFormed(Framed(p)) == Framed(ToWellFormed(p))
  {
    var head := Digits(|p|) + [COLON];
    PlainIsWellFormed(head);
    WellFormedParts(head, p);
  }

  lemma FrameMore(ps: seq<Text>)
    requires |ps| > 1
    ensures Frame(ps) == Framed(ps[0]) + ([BAR] + Frame(ps[1..]))
  {
    hide Framed;
  }

  lemma MoreWellFormed(p: Text, rest: Text)
    ensures ToWellFormed(Framed(p) + ([BAR] + rest)) == Framed(ToWellFormed(p)) + ([BAR] + ToWellFormed(rest))
  {
    hide ToWellFormed, Framed;
    PlainIsWellFormed([BAR]);
    WellFormedParts([BAR], rest);
    FramedWellFormed(p);
    WellFormedParts(Framed(p), [BAR] + rest);
  }

  /** Replacing lone surrogates keeps every length, so it goes through the frame. */
  lemma {:induction false} FrameWellFormed(ps: seq<Text>)
    ensures ToWellFormed(Frame(ps)) == Frame(WellFormedAll(ps))
  {
    var qs := WellFormedAll(ps);
    if |ps| == 1 {
      FramedWellFormed(ps[0]);
    } else if |ps| > 1 {
      hide ToWellFormed, Framed, Frame;
      FrameWellFormed(ps[1..]);
      assert qs[1..] == WellFormedAll(ps[1..]);
      FrameMore(ps);
      FrameMore(qs);
      MoreWellFormed(ps[0], Frame(ps[1..]));
    }
  }
}

/** Canonical texts have no lone surrogates, so their UTF-8 form loses nothing. */
module CanonicalBytes {
  import opened Utf16
  import opened JsonStrings
  import opened JsonTexts
  import opened Framing

  lemma ChunkWellFormed(s: Text)
    requires s != []
    ensures IsWellFormed(Chunk(s))
  {
    if StartsPair(s) {
      assert ToWellFormed(s[..2]) == s[..2] + ToWellFormed(s[..2][2..]);
    } else {
      PlainIsWellFormed(Chunk(s));
    }
  }

  lemma {:induction false} EscapeWellFormed(s: Text)
    ensures IsWellFormed(Escape(s))
  {
    if s != [] {
      hide Chunk, ToWellFormed;
      ChunkWellFormed(s);
      EscapeWellFormed(s[ChunkWidth(s)..]);
      WellFormedConcat(Chunk(s), Escape(s[ChunkWidth(s)..]));
    }
  }

  lemma QuoteWellFormed(s: Text)
    ensures IsWellFormed(Quote(s))
  {
    hide Escape, ToWellFormed;
    EscapeWellFormed(s);
    PlainIsWellFormed([QUOTE]);
    WellFormedConcat([QUOTE], Escape(s));
    WellFormedConcat([QUOTE] + Escape(s), [QUOTE]);
  }

  lemma {:induction false} JoinWellFormed(ts: seq<Text>)
    requires forall i | 0 <= i < |ts| :: IsWellFormed(ts[i])
    ensures IsWellFormed(Join(ts, COMMA))
  {
    if |ts| == 1 {
    } else if |ts| > 1 {
      hide IsWellFormed;
      JoinWellFormed(ts[1..]);
      PlainIsWellFormed([COMMA]);
      WellFormedConcat(ts[0], [COMMA]);
      WellFormedConcat(ts[0] + [COMMA], Join(ts[1..], COMMA));
    }
  }

  lemma Enclosed(open: Unit, ts: seq<Text>, close: Unit)
    requires forall i | 0 <= i < |ts| :: IsWellFormed(ts[i])
    requires !IsSurrogate(open) && !IsSurrogate(close)
    ensures IsWellFormed([open] + Join(ts, COMMA) + [close])
  {
    hide IsWellFormed;
    JoinWellFormed(ts);
    PlainIsWellFormed([open]);
    PlainIsWellFormed([close]);
    WellFormedConcat([open], Join(ts, COMMA));
    WellFormedConcat([open] + Join(ts, COMMA), [close]);
  }

  lemma {:induction false} NormalTextWellFormed(n: Normal)
    ensures IsWellFormed(NormalText(n))
    decreases n
  {
    hide IsWellFormed, Quote, Join;
    ListTexts(n);
    match n
    case String(text) => QuoteWellFormed(text);
    case Array(items) =>
      forall i | 0 <= i < |items| ensures IsWellFormed(ItemTexts(items)[i]) {
        NormalTextWellFormed(items[i]);
      }
      Enclosed(LEFT_BRACKET, ItemTexts(items), RIGHT_BRACKET);
    case Object(entries) =>
      forall i | 0 <= i < |entries| ensures IsWellFormed(EntryTexts(entries)[i]) {
        var e := entries[i];
        NormalTextWellFormed(e.value);
        QuoteWellFormed(e.key);
        PlainIsWellFormed([JsonTexts.COLON]);
        WellFormedConcat(Quote(e.key), [JsonTexts.COLON]);
        WellFormedConcat(Quote(e.key) + [JsonTexts.COLON], NormalText(e.value));
      }
      Enclosed(LEFT_BRACE, EntryTexts(entries), RIGHT_BRACE);
    case _ => PlainIsWellFormed(NormalText(n));
  }
}

/** Events, their fingerprints, and what the last fingerprint says about all events before it. */
module ChainModel {
  import opened Wrappers
  import opened Utf16
  import opened Decimal
  import opened JsonTexts
  import opened Framing
  import opened CanonicalBytes

  /** A digest in lower-case hexadecimal. */
  predicate IsDigest(s: Text) {
    |s| == 64 && forall i | 0 <= i < |s| :: 48 <= s[i] < 58 || 97 <= s[i] < 103
  }

  function Zeros(n: nat): (r: Text)
    ensures |r| == n && forall i | 0 <= i < n :: r[i] == 48
  {
    if n == 0 then [] else [48] + Zeros(n - 1)
  }

  type Digest = s: Text | IsDigest(s) witness Zeros(64)

  /** The digest of the UTF-8 form of a text; the model leaves open which function it is. */
  type Hash = Text -> Digest

  const GENESIS_HASH: Digest := Zeros(64)

  /** The payload is given as the normal form it denotes, if it has one. */
  datatype Envelope = Envelope(id: Text, sequence: int, timestamp: Text, payload: Option<NormalForm>)

  datatype ChainedEvent = ChainedEvent(envelope: Envelope, previousHash: Text, hash: Text)

  /** `guildpass.audit-chain.v1` */
  function Domain(): Text {
    [103, 117, 105, 108, 100, 112, 97, 115, 115, 46, 97, 117, 100, 105, 116, 45, 99, 104, 97, 105, 110, 46, 118, 49]
  }

  function SequenceText(n: int): Text {
    assert Ascii(IntText(n));
    Units(IntText(n))
  }

  function Parts(previousHash: Text, e: Envelope): (r: seq<Text>)
    requires e.payload.Some?
    ensures |r| == 6
  {
    [Domain(), previousHash, e.id, SequenceText(e.sequence), e.timestamp, NormalText(e.payload.value)]
  }

  function Preimage(previousHash: Text, e: Envelope): Text
    requires e.payload.Some?
  {
    Frame(Parts(previousHash, e))
  }

  /** What is digested: the preimage after encoding. */
  function Digested(previousHash: Text, e: Envelope): Text
    requires e.payload.Some?
  {
    ToWellFormed(Preimage(previousHash, e))
  }

  function EventHash(hash: Hash, previousHash: Text, e: Envelope): Digest
    requires e.payload.Some?
  {
    hash(Digested(previousHash, e))
  }

  /** The same event, as far as its encoded form can tell. */
  ghost predicate SameEvent(a: Envelope, b: Envelope) {
    && ToWellFormed(a.id) == ToWellFormed(b.id)
    && a.sequence == b.sequence
    && ToWellFormed(a.timestamp) == ToWellFormed(b.timestamp)
    && a.payload == b.payload
  }

  /** What is digested, spelled out: six parts with bars between them ... */
  lemma PreimageSpelled(previousHash: Text, e: Envelope)
    requires e.payload.Some?
    ensures Preimage(previousHash, e) ==
              Framed(Domain()) + Units("|") + Framed(previousHash) + Units("|") + Framed(e.id) + Units("|") +
              Framed(SequenceText(e.sequence)) + Units("|") + Framed(e.timestamp) + Units("|") +
              Framed(NormalText(e.payload.value))
  {
    assert Units("|") == [BAR];
    var id, sequence, timestamp, text := e.id, SequenceText(e.sequence), e.timestamp, NormalText(e.payload.value);
    FrameSix(Domain(), previousHash, id, sequence, timestamp, text);
    hide Framed, NormalText, SequenceText, Domain, Frame;
    SixFrames(Framed(Domain()), Framed(previousHash), Framed(id), Framed(sequence), Framed(timestamp), Framed(text));
  }

  /** ... each behind its length and a colon ... */
  lemma PartSpelled(p: Text, n: int)
    ensures Framed(p) == Units(NatText(|p|)) + Units(":") + p
    ensures SequenceText(n) == Units(IntText(n))
  {
    assert Units(":") == [Framing.COLON];
  }

  /** ... the first of them this text. */
  lemma DomainText()
    ensures Units("guildpass.audit-chain.v1") == Domain()
  {
  }

  lemma FrameSix(a: Text, b: Text, c: Text, d: Text, e: Text, f: Text)
    ensures Frame([a, b, c, d, e, f]) ==
            Framed(a) + ([BAR] + (Framed(b) + ([BAR] + (Framed(c) + ([BAR] + (Framed(d) + ([BAR] + (Framed(e) +
              ([BAR] + Framed(f))))))))))
  {
    hide Framed;
    var ps := [a, b, c, d, e, f];
    assert ps[1..] == [b, c, d, e, f] && ps[1..][1..] == [c, d, e, f];
    assert [c, d, e, f][1..] == [d, e, f] && [d, e, f][1..] == [e, f] && [e, f][1..] == [f];
    FrameMore(ps);
    FrameMore([b, c, d, e, f]);
    FrameMore([c, d, e, f]);
    FrameMore([d, e, f]);
    FrameMore([e, f]);
    FrameOne(f);
    hide Frame;
  }

  lemma FrameOne(f: Text)
    ensures Frame([f]) == Framed(f)
  {
  }

  lemma SixFrames(a: Text, b: Text, c: Text, d: Text, e: Text, f: Text)
    ensures a + ([BAR] + (b + ([BAR] + (c + ([BAR] + (d + ([BAR] + (e + ([BAR] + f))))))))) ==
              a + [BAR] + b + [BAR] + c + [BAR] + d + [BAR] + e + [BAR] + f
  {
  }

  lemma SequenceTextInjective(a: int, b: int)
    requires SequenceText(a) == SequenceText(b)
    ensures a == b
  {
    UnitsInjective(IntText(a), IntText(b));
    IntTextInjective(a, b);
  }

  /** The parts as they come out of the encoding. */
  function EncodedParts(previousHash: Text, e: Envelope): seq<Text>
    requires e.payload.Some?
  {
    [Domain(), ToWellFormed(previousHash), ToWellFormed(e.id), SequenceText(e.sequence), ToWellFormed(e.timestamp),
     NormalText(e.payload.value)]
  }

  lemma DigestedIsFramed(p: Text, e: Envelope)
    requires e.payload.Some?
    ensures Digested(p, e) == Frame(EncodedParts(p, e))
  {
    hide ToWellFormed, Frame, IsNormal, NormalText, SequenceText, Domain;
    var ps, qs := WellFormedAll(Parts(p, e)), EncodedParts(p, e);
    FrameWellFormed(Parts(p, e));
    SequenceIsPlain(e.sequence);
    PlainIsWellFormed(SequenceText(e.sequence));
    DomainIsPlain();
    PlainIsWellFormed(Domain());
    NormalTextWellFormed(e.payload.value);
    assert ps[0] == qs[0] && ps[1] == qs[1] && ps[2] == qs[2] && ps[3] == qs[3] && ps[4] == qs[4] && ps[5] == qs[5];
    assert ps == qs;
  }

  lemma EncodedPartsIff(p: Text, a: Envelope, q: Text, b: Envelope)
    requires a.payload.Some? && b.payload.Some?
    ensures EncodedParts(p, a) == EncodedParts(q, b) <==> ToWellFormed(p) == ToWellFormed(q) && SameEvent(a, b)
  {
    hide ToWellFormed, IsNormal, NormalText, SequenceText, Domain;
    var ps, qs := EncodedParts(p, a), EncodedParts(q, b);
    if ps == qs {
      assert ps[1] == qs[1] && ps[2] == qs[2] && ps[3] == qs[3] && ps[4] == qs[4] && ps[5] == qs[5];
      SequenceTextInjective(a.sequence, b.sequence);
      NormalTextInjective(a.payload.value, b.payload.value);
    }
  }

  /** Two events are digested from one text exactly when they are the same event on the same predecessor. */
  lemma DigestedIff(p: Text, a: Envelope, q: Text, b: Envelope)
    requires a.payload.Some? && b.payload.Some?
    ensures Digested(p, a) == Digested(q, b) <==> ToWellFormed(p) == ToWellFormed(q) && SameEvent(a, b)
  {
    hide *;
    DigestedIsFramed(p, a);
    DigestedIsFramed(q, b);
    EncodedPartsIff(p, a, q, b);
    if Digested(p, a) == Digested(q, b) {
      FrameInjective(EncodedParts(p, a), EncodedParts(q, b));
    }
  }

  lemma DomainIsPlain()
    ensures forall i | 0 <= i < |Domain()| :: !IsSurrogate(Domain()[i])
  {
  }

  lemma SequenceIsPlain(n: int)
    ensures forall i | 0 <= i < |SequenceText(n)| :: !IsSurrogate(SequenceText(n)[i])
  {
  }

  /** Ids that differ in a lone surrogate only are one id to every digest. */
  lemma LoneSurrogatesMerge(hash: Hash, p: Text, n: NormalForm)
    ensures var a, b := Envelope([0xD800], 0, [], Some(n)), Envelope([0xD801], 0, [], Some(n));
            a.id != b.id && EventHash(hash, p, a) == EventHash(hash, p, b)
  {
    var a, b := Envelope([0xD800], 0, [], Some(n)), Envelope([0xD801], 0, [], Some(n));
    assert ToWellFormed(a.id) == [REPLACEMENT] == ToWellFormed(b.id);
    DigestedIff(p, a, p, b);
  }

  // --- chains ---

  ghost function Before(c: seq<ChainedEvent>, i: nat): Text
    requires i < |c|
  {
    if i == 0 then GENESIS_HASH else c[i - 1].hash
  }

  /** Event `i` continues the chain. */
  ghost predicate Linked(hash: Hash, c: seq<ChainedEvent>, i: nat)
    requires i < |c|
  {
    && c[i].previousHash == Before(c, i)
    && (i > 0 ==> c[i].envelope.sequence == c[i - 1].envelope.sequence + 1)
    && c[i].envelope.payload.Some?
    && c[i].hash == EventHash(hash, c[i].previousHash, c[i].envelope)
  }

  ghost predicate ValidChain(hash: Hash, c: seq<ChainedEvent>) {
    forall i: nat | i < |c| :: Linked(hash, c, i)
  }

  function LastHash(c: seq<ChainedEvent>): Text
    requires c != []
  {
    c[|c| - 1].hash
  }

  /** Two events of these chains are digested from different texts to one digest. */
  ghost predicate Collision(hash: Hash, a: seq<ChainedEvent>, b: seq<ChainedEvent>) {
    exists i, j :: 0 <= i < |a| && 0 <= j < |b| && Collides(hash, a[i], b[j])
  }

  ghost predicate Collides(hash: Hash, x: ChainedEvent, y: ChainedEvent) {
    && x.envelope.payload.Some? && y.envelope.payload.Some?
    && Digested(x.previousHash, x.envelope) != Digested(y.previousHash, y.envelope)
    && EventHash(hash, x.previousHash, x.envelope) == EventHash(hash, y.previousHash, y.envelope)
  }

  ghost predicate HashesToGenesis(c: seq<ChainedEvent>) {
    exists i :: 0 <= i < |c| && c[i].hash == GENESIS_HASH
  }

  ghost predicate SameHistory(a: seq<ChainedEvent>, b: seq<ChainedEvent>) {
    |a| == |b| && forall i | 0 <= i < |a| :: SameEvent(a[i].envelope, b[i].envelope)
  }

  lemma ValidPrefix(hash: Hash, c: seq<ChainedEvent>)
    requires ValidChain(hash, c) && |c| > 1
    ensures ValidChain(hash, c[..|c| - 1]) && LastHash(c[..|c| - 1]) == c[|c| - 1].previousHash
  {
    var front := c[..|c| - 1];
    assert Linked(hash, c, |c| - 1);
    forall i: nat | i < |front| ensures Linked(hash, front, i) {
      assert Linked(hash, c, i);
    }
  }

  lemma DigestIsWellFormed(d: Digest)
    ensures IsWellFormed(d)
  {
    PlainIsWellFormed(d);
  }

  /** The predecessor recorded by a linked event is a digest. */
  lemma BeforeIsDigest(hash: Hash, c: seq<ChainedEvent>, i: nat)
    requires ValidChain(hash, c) && i < |c|
    ensures IsDigest(c[i].previousHash)
  {
    assert Linked(hash, c, i);
    assert i > 0 ==> Linked(hash, c, i - 1);
  }

  /** Last events with one hash: a collision, or the same event on the same predecessor. */
  lemma LastEventsAgree(hash: Hash, a: seq<ChainedEvent>, b: seq<ChainedEvent>)
    requires ValidChain(hash, a) && ValidChain(hash, b) && a != [] && b != [] && LastHash(a) == LastHash(b)
    ensures Collision(hash, a, b) ||
            (a[|a| - 1].previousHash == b[|b| - 1].previousHash && SameEvent(a[|a| - 1].envelope, b[|b| - 1].envelope))
  {
    hide ToWellFormed, IsNormal;
    var i, j := |a| - 1, |b| - 1;
    assert Linked(hash, a, i) && Linked(hash, b, j);
    if !Collides(hash, a[i], b[j]) {
      DigestedIff(a[i].previousHash, a[i].envelope, b[j].previousHash, b[j].envelope);
      BeforeIsDigest(hash, a, i);
      BeforeIsDigest(hash, b, j);
      DigestIsWellFormed(a[i].previousHash);
      DigestIsWellFormed(b[j].previousHash);
    }
  }

  /** The last fingerprint binds every event before it, in number, order and content. */
  lemma {:induction false} LastHashBindsHistory(hash: Hash, a: seq<ChainedEvent>, b: seq<ChainedEvent>)
    requires ValidChain(hash, a) && ValidChain(hash, b) && a != [] && b != [] && LastHash(a) == LastHash(b)
    ensures SameHistory(a, b) || Collision(hash, a, b) || HashesToGenesis(a) || HashesToGenesis(b)
    decreases |a|
  {
    hide SameEvent, Collides;
    LastEventsAgree(hash, a, b);
    var i, j := |a| - 1, |b| - 1;
    assert Linked(hash, a, i) && Linked(hash, b, j);
    if !Collision(hash, a, b) {
      if i > 0 && j > 0 {
        ValidPrefix(hash, a);
        ValidPrefix(hash, b);
        LastHashBindsHistory(hash, a[..i], b[..j]);
        PrefixCases(hash, a, b);
      } else if i > 0 {
        assert a[i - 1].hash == GENESIS_HASH;
      } else if j > 0 {
        assert b[j - 1].hash == GENESIS_HASH;
      }
    }
  }

  lemma PrefixCases(hash: Hash, a: seq<ChainedEvent>, b: seq<ChainedEvent>)
    requires |a| > 1 && |b| > 1
    ensures Collision(hash, a[..|a| - 1], b[..|b| - 1]) ==> Collision(hash, a, b)
    ensures HashesToGenesis(a[..|a| - 1]) ==> HashesToGenesis(a)
    ensures HashesToGenesis(b[..|b| - 1]) ==> HashesToGenesis(b)
    ensures SameHistory(a[..|a| - 1], b[..|b| - 1]) && SameEvent(a[|a| - 1].envelope, b[|b| - 1].envelope) ==>
              SameHistory(a, b)
  {
    hide SameEvent, Collides;
    var x, y := a[..|a| - 1], b[..|b| - 1];
    if i, j :| 0 <= i < |x| && 0 <= j < |y| && Collides(hash, x[i], y[j]) {
      assert Collides(hash, a[i], b[j]);
    }
    if i :| 0 <= i < |x| && x[i].hash == GENESIS_HASH { assert a[i] == x[i]; }
    if i :| 0 <= i < |y| && y[i].hash == GENESIS_HASH { assert b[i] == y[i]; }
    if SameHistory(x, y) && SameEvent(a[|a| - 1].envelope, b[|b| - 1].envelope) {
      forall i | 0 <= i < |a| ensures SameEvent(a[i].envelope, b[i].envelope) {
        if i < |a| - 1 { assert SameEvent(x[i].envelope, y[i].envelope); }
      }
    }
  }

  /** And the same history always has the same fingerprints. */
  lemma {:induction false} SameHistorySameHashes(hash: Hash, a: seq<ChainedEvent>, b: seq<ChainedEvent>, i: nat)
    requires ValidChain(hash, a) && ValidChain(hash, b) && SameHistory(a, b) && i < |a|
    ensures a[i].hash == b[i].hash
  {
    hide SameEvent, ToWellFormed, Digested;
    assert Linked(hash, a, i) && Linked(hash, b, i);
    if i > 0 { SameHistorySameHashes(hash, a, b, i - 1); }
    DigestedIff(a[i].previousHash, a[i].envelope, b[i].previousHash, b[i].envelope);
  }
}

module AuditChain {
  import opened Wrappers
  import opened Utf16
  import opened Framing
  import opened ChainModel

  datatype BreakReason = HashMismatch | PreviousHashMismatch | GenesisMismatch | SequenceMismatch

  /** `Threw` is what recomputing the hash of a payload without canonical form does. */
  datatype Verdict = Valid | Broken(index: nat, reason: BreakReason) | Threw(index: nat)

  method LinkEvent(hash: Hash, event: Envelope, previousHash: Text := GENESIS_HASH) returns (link: Option<ChainedEvent>)
    ensures link.Some? <==> event.payload.Some?
    ensures link.Some? ==> link.value == ChainedEvent(event, previousHash, EventHash(hash, previousHash, event))
  {
    if event.payload.None? {
      return None;
    }
    return Some(ChainedEvent(event, previousHash, EventHash(hash, previousHash, event)));
  }

  ghost predicate InSequence(events: seq<Envelope>) {
    forall i | 1 <= i < |events| :: events[i].sequence == events[i - 1].sequence + 1
  }

  ghost predicate AllEncodable(events: seq<Envelope>) {
    forall i | 0 <= i < |events| :: events[i].payload.Some?
  }

  /** Links every event to the one before; what it builds verifies exactly when the sequence numbers are consecutive. */
  method BuildChain(hash: Hash, events: seq<Envelope>) returns (chained: Option<seq<ChainedEvent>>)
    ensures chained.Some? <==> AllEncodable(events)
    ensures chained.Some? ==>
              |chained.value| == |events| && forall i | 0 <= i < |events| :: chained.value[i].envelope == events[i]
    ensures chained.Some? ==> forall i: nat | i < |events| :: Anchored(hash, chained.value, i)
    ensures chained.Some? ==> (ValidChain(hash, chained.value) <==> InSequence(events))
  {
    hide EventHash, ValidChain, InSequence, Anchored;
    var links: seq<ChainedEvent>, previousHash: Text := [], GENESIS_HASH;
    for i := 0 to |events|
      invariant |links| == i && forall j | 0 <= j < i :: links[j].envelope == events[j] && events[j].payload.Some?
      invariant previousHash == if i == 0 then GENESIS_HASH else links[i - 1].hash
      invariant forall j: nat | j < i :: Anchored(hash, links, j)
    {
      var link := LinkEvent(hash, events[i], previousHash);
      if link.None? {
        return None;
      }
      AnchoredNext(hash, links, link.value, previousHash);
      links := links + [link.value];
      previousHash := link.value.hash;
    }
    BuiltIsValid(hash, links, events);
    return Some(links);
  }

  ghost predicate Anchored(hash: Hash, c: seq<ChainedEvent>, i: nat)
    requires i < |c|
  {
    && c[i].envelope.payload.Some?
    && c[i].previousHash == Before(c, i)
    && c[i].hash == EventHash(hash, c[i].previousHash, c[i].envelope)
  }

  /** An anchored event records the hash before it, or 64 zeros when it is the first, and the digest of both. */
  lemma AnchoredMeans(hash: Hash, c: seq<ChainedEvent>, i: nat)
    requires i < |c| && Anchored(hash, c, i)
    ensures c[i].envelope.payload.Some? && c[i].hash == hash(ToWellFormed(Preimage(c[i].previousHash, c[i].envelope)))
    ensures i > 0 ==> c[i].previousHash == c[i - 1].hash
    ensures i == 0 ==> |c[i].previousHash| == 64 && forall k | 0 <= k < 64 :: c[i].previousHash[k] == '0' as int
  {
    hide ToWellFormed, Preimage;
  }

  lemma AnchoredNext(hash: Hash, c: seq<ChainedEvent>, link: ChainedEvent, previousHash: Text)
    requires forall j: nat | j < |c| :: Anchored(hash, c, j)
    requires previousHash == if c == [] then GENESIS_HASH else LastHash(c)
    requires link.envelope.payload.Some?
    requires link == ChainedEvent(link.envelope, previousHash, EventHash(hash, previousHash, link.envelope))
    ensures forall j: nat | j <= |c| :: Anchored(hash, c + [link], j)
  {
    hide EventHash;
    forall j: nat | j <= |c| ensures Anchored(hash, c + [link], j) {
      if j < |c| { assert Anchored(hash, c, j); }
    }
  }

  lemma BuiltIsValid(hash: Hash, c: seq<ChainedEvent>, events: seq<Envelope>)
    requires |c| == |events| && forall i | 0 <= i < |c| :: c[i].envelope == events[i] && events[i].payload.Some?
    requires forall i: nat | i < |c| :: Anchored(hash, c, i)
    ensures ValidChain(hash, c) <==> InSequence(events)
  {
    hide EventHash;
    if InSequence(events) {
      forall i: nat | i < |c| ensures Linked(hash, c, i) {
        assert Anchored(hash, c, i);
      }
    }
    if ValidChain(hash, c) {
      forall i | 1 <= i < |events| ensures events[i].sequence == events[i - 1].sequence + 1 {
        assert Linked(hash, c, i);
      }
    }
  }

  /** Accepts exactly the valid chains, and otherwise names the first event that breaks the chain, and how. */
  method VerifyChain(hash: Hash, events: seq<ChainedEvent>) returns (r: Verdict)
    ensures r.Valid? <==> ValidChain(hash, events)
    ensures !r.Valid? ==> r.index < |events| && ValidChain(hash, events[..r.index]) && !Linked(hash, events, r.index)
    ensures r.Threw? ==> events[r.index].envelope.payload.None?
    ensures r.Broken? && r.reason == GenesisMismatch ==> r.index == 0
    ensures r.Broken? && r.reason == PreviousHashMismatch ==> r.index > 0
    ensures r.Broken? && (r.reason == GenesisMismatch || r.reason == PreviousHashMismatch) <==>
            r.Broken? && events[r.index].previousHash != Before(events, r.index)
    ensures r.Threw? || (r.Broken? && (r.reason == SequenceMismatch || r.reason == HashMismatch)) ==>
              events[r.index].previousHash == Before(events, r.index)
    ensures r.Threw? || (r.Broken? && r.reason == HashMismatch) ==>
              r.index == 0 || events[r.index].envelope.sequence == events[r.index - 1].envelope.sequence + 1
    ensures r.Broken? && r.reason == SequenceMismatch ==>
              r.index > 0 && events[r.index].envelope.sequence != events[r.index - 1].envelope.sequence + 1
    ensures r.Broken? && r.reason == HashMismatch ==>
              && events[r.index].envelope.payload.Some?
              && events[r.index].hash != EventHash(hash, events[r.index].previousHash, events[r.index].envelope)
  {
    hide EventHash, ValidChain;
    var expectedPrevious: Text := GENESIS_HASH;
    for index := 0 to |events|
      invariant expectedPrevious == if index == 0 then GENESIS_HASH else events[index - 1].hash
      invariant forall i: nat | i < index :: Linked(hash, events, i)
    {
      PrefixLinked(hash, events, index);
      if !Linked(hash, events, index) { NotValid(hash, events, index); }
      var event := events[index];
      if event.previousHash != expectedPrevious {
        return Broken(index, if index == 0 then GenesisMismatch else PreviousHashMismatch);
      }
      var expectedSequence :=
        if index == 0 then events[0].envelope.sequence else events[index - 1].envelope.sequence + 1;
      if event.envelope.sequence != expectedSequence {
        return Broken(index, SequenceMismatch);
      }
      if event.envelope.payload.None? {
        return Threw(index);
      }
      var recomputed := EventHash(hash, event.previousHash, event.envelope);
      if recomputed != event.hash {
        return Broken(index, HashMismatch);
      }
      expectedPrevious := event.hash;
    }
    PrefixLinked(hash, events, |events|);
    assert events[..|events|] == events;
    return Valid;
  }

  lemma NotValid(hash: Hash, c: seq<ChainedEvent>, i: nat)
    requires i < |c| && !Linked(hash, c, i)
    ensures !ValidChain(hash, c)
  {
    hide Linked;
  }

  lemma PrefixLinked(hash: Hash, c: seq<ChainedEvent>, k: nat)
    requires k <= |c| && forall i: nat | i < k :: Linked(hash, c, i)
    ensures ValidChain(hash, c[..k])
  {
    hide EventHash;
    forall i: nat | i < k ensures Linked(hash, c[..k], i) {
      assert Linked(hash, c, i);
    }
  }
}
