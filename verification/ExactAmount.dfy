/** Digit strings under concatenation and padding. */
module DigitStrings {
  import opened Decimal

  function Pow10(n: nat): (p: nat)
    ensures p >= 1
  {
    if n == 0 then 1 else 10 * Pow10(n - 1)
  }

  /** Quotient and remainder of naturals, kept apart from what surrounds them. */
  function Quotient(m: nat, s: nat): nat
    requires s > 0
  {
    m / s
  }

  function Remainder(m: nat, s: nat): (r: nat)
    requires s > 0
    ensures r < s
  {
    m % s
  }

  lemma Division(m: nat, s: nat)
    requires s > 0
    ensures m == Quotient(m, s) * s + Remainder(m, s)
  {
  }

  lemma {:induction false} Pow10Adds(m: nat, n: nat)
    ensures Pow10(m + n) == Pow10(m) * Pow10(n)
  {
    if n > 0 {
      Pow10Adds(m, n - 1);
      assert Pow10(m + n) == 10 * (Pow10(m) * Pow10(n - 1)) == Pow10(m) * (10 * Pow10(n - 1));
    }
  }

  function Zeros(n: nat): (s: string)
    ensures |s| == n && AllDigits(s) && forall i | 0 <= i < n :: s[i] == '0'
  {
    seq(n, _ => '0')
  }

  lemma TimesTen(a: int, b: int)
    ensures 10 * (a * b) == a * (10 * b)
  {
  }

  lemma {:induction false} ValueOfConcat(s: string, t: string)
    requires AllDigits(s) && AllDigits(t)
    ensures NatValue(s + t) == NatValue(s) * Pow10(|t|) + NatValue(t)
    decreases |t|
  {
    if t == "" {
      assert s + t == s;
    } else {
      var front, last := t[..|t| - 1], DigitValue(t[|t| - 1]);
      assert (s + t)[..|s + t| - 1] == s + front;
      ValueOfConcat(s, front);
      assert NatValue(s + t) == 10 * NatValue(s + front) + last && NatValue(t) == 10 * NatValue(front) + last;
      assert Pow10(|t|) == 10 * Pow10(|front|);
      hide NatValue, Pow10;
      TimesTen(NatValue(s), Pow10(|front|));
    }
  }

  lemma {:induction false} ValueOfZeros(n: nat)
    ensures NatValue(Zeros(n)) == 0
  {
    if n > 0 {
      assert Zeros(n)[..n - 1] == Zeros(n - 1);
      ValueOfZeros(n - 1);
    }
  }

  lemma {:induction false} ValueIsBelow(s: string)
    requires AllDigits(s)
    ensures NatValue(s) < Pow10(|s|)
  {
    if s != "" { ValueIsBelow(s[..|s| - 1]); }
  }

  lemma {:induction false} TextIsShort(n: nat, d: nat)
    requires n < Pow10(d) && d > 0
    ensures |NatText(n)| <= d
    decreases d
  {
    if n >= 10 { TextIsShort(n / 10, d - 1); }
  }

  function PadEnd(s: string, n: nat): string {
    if |s| >= n then s else s + Zeros(n - |s|)
  }

  function PadStart(s: string, n: nat): string {
    if |s| >= n then s else Zeros(n - |s|) + s
  }

  /** `replace(/0+$/, "")` */
  function StripZeros(s: string): (r: string)
    ensures |r| <= |s| && s == r + Zeros(|s| - |r|)
    ensures r == "" || r[|r| - 1] != '0'
  {
    if s == "" || s[|s| - 1] != '0' then s
    else
      var r := StripZeros(s[..|s| - 1]);
      assert Zeros(|s| - |r|) == Zeros(|s| - 1 - |r|) + "0";
      assert s == s[..|s| - 1] + "0";
      r
  }
}

module ExactAmount {
  import opened Wrappers
  import opened Decimal
  import opened DigitStrings

  const MAX_DECIMALS := 255

  datatype Result<+T> = Ok(value: T) | RangeError | InvalidAmount

  // --- the accepted grammar ---

  /** `fraction` is empty when there is no point. */
  datatype Parts = Parts(sign: string, whole: string, fraction: string)

  predicate IsParts(p: Parts) {
    && (p.sign == "" || p.sign == "+" || p.sign == "-")
    && p.whole != "" && AllDigits(p.whole) && AllDigits(p.fraction)
  }

  function Written(p: Parts): string {
    p.sign + p.whole + if p.fraction == "" then "" else "." + p.fraction
  }

  /** How many digits a string starts with. */
  function DigitRun(s: string): (k: nat)
    ensures k <= |s| && AllDigits(s[..k]) && (k < |s| ==> !IsDigit(s[k]))
  {
    if s == "" || !IsDigit(s[0]) then 0
    else
      var k := DigitRun(s[1..]);
      assert s[..k + 1] == [s[0]] + s[1..][..k];
      k + 1
  }

  function SignOf(s: string): string {
    if s != "" && (s[0] == '+' || s[0] == '-') then s[..1] else ""
  }

  /** The match of an optional sign, digits, and optionally a point with digits, against a whole string. */
  function Match(s: string): Option<Parts> {
    var sign := SignOf(s);
    var rest := s[|sign|..];
    var k := DigitRun(rest);
    if k == 0 then None
    else if k == |rest| then Some(Parts(sign, rest, ""))
    else if rest[k] == '.' && k + 1 < |rest| && AllDigits(rest[k + 1..])
    then Some(Parts(sign, rest[..k], rest[k + 1..]))
    else None
  }

  lemma DigitRunIs(s: string, k: nat)
    requires k <= |s| && AllDigits(s[..k]) && (k < |s| ==> !IsDigit(s[k]))
    ensures DigitRun(s) == k
  {
    var r := DigitRun(s);
    assert r == k;
  }

  /** A string matches exactly when it is written from some parts, and then from those. */
  lemma MatchIff(s: string, p: Parts)
    ensures Match(s) == Some(p) <==> IsParts(p) && Written(p) == s
  {
    if Match(s) == Some(p) {
      MatchIsWritten(s);
    }
    if IsParts(p) && Written(p) == s {
      WrittenMatches(p);
    }
  }

  lemma CutAt(sign: string, rest: string, k: nat)
    requires k < |rest| && rest[k] == '.'
    ensures sign + rest == sign + rest[..k] + ("." + rest[k + 1..])
  {
    assert rest == rest[..k] + ("." + rest[k + 1..]);
  }

  lemma MatchIsWritten(s: string)
    requires Match(s).Some?
    ensures IsParts(Match(s).value) && Written(Match(s).value) == s
  {
    assert AllDigits("");
    hide DigitRun, AllDigits;
    var sign := SignOf(s);
    var rest := s[|sign|..];
    var k := DigitRun(rest);
    assert s == sign + rest;
    if k < |rest| {
      CutAt(sign, rest, k);
    } else {
      assert rest[..k] == rest && sign + rest + "" == sign + rest;
    }
  }

  lemma SignOfWritten(p: Parts, tail: string)
    requires IsParts(p)
    ensures SignOf(p.sign + (p.whole + tail)) == p.sign && (p.sign + (p.whole + tail))[|p.sign|..] == p.whole + tail
  {
    assert IsDigit(p.whole[0]) && (p.whole + tail)[0] == p.whole[0];
  }

  lemma WholeOfWritten(p: Parts, tail: string)
    requires IsParts(p) && (tail == "" || tail[0] == '.')
    ensures DigitRun(p.whole + tail) == |p.whole|
    ensures (p.whole + tail)[..|p.whole|] == p.whole && (p.whole + tail)[|p.whole|..] == tail
  {
    hide DigitRun;
    DigitRunIs(p.whole + tail, |p.whole|);
  }

  /** What stands after the digits of the whole part. */
  function TailOf(p: Parts): string {
    if p.fraction == "" then "" else "." + p.fraction
  }

  lemma MatchFrom(s: string, rest: string, p: Parts)
    requires IsParts(p) && SignOf(s) == p.sign && |p.sign| <= |s| && s[|p.sign|..] == rest
    requires DigitRun(rest) == |p.whole| && rest[..|p.whole|] == p.whole && rest[|p.whole|..] == TailOf(p)
    ensures Match(s) == Some(p)
  {
    hide DigitRun, SignOf, AllDigits;
    var k := |p.whole|;
    assert |rest| == k + |TailOf(p)|;
    if p.fraction == "" {
      assert rest[..k] == rest;
    } else {
      assert rest[k] == TailOf(p)[0] && rest[k + 1..] == rest[k..][1..] == p.fraction;
    }
  }

  lemma WrittenMatches(p: Parts)
    requires IsParts(p)
    ensures Match(Written(p)) == Some(p)
  {
    assert Written(p) == p.sign + (p.whole + TailOf(p));
    SignOfWritten(p, TailOf(p));
    WholeOfWritten(p, TailOf(p));
    hide *;
    MatchFrom(Written(p), p.whole + TailOf(p), p);
  }

  // --- the two operations ---

  /** Base units of the magnitude: the digits with the fraction padded to full precision. */
  function UnitsOf(p: Parts, decimals: nat): nat
    requires IsParts(p)
  {
    NatValue(p.whole) * Pow10(decimals) + NatValue(PadEnd(p.fraction, decimals))
  }

  function Signed(sign: string, units: nat): int {
    var u: int := units;
    if u == 0 then 0 else if sign == "-" then -u else u
  }

  function ParseAmount(value: string, decimals: int): Result<int> {
    if decimals < 0 || decimals > MAX_DECIMALS then RangeError
    else
      match Match(value)
      case None => InvalidAmount
      case Some(p) =>
        if |p.fraction| > decimals then InvalidAmount
        else
          MatchIsWritten(value);
          Ok(Signed(p.sign, UnitsOf(p, decimals)))
  }

  function FormatAmount(value: int, decimals: int): Result<string> {
    if decimals < 0 || decimals > MAX_DECIMALS then RangeError
    else
      var magnitude: nat := if value < 0 then -value else value;
      var sign := if value < 0 then "-" else "";
      var whole := NatText(Quotient(magnitude, Pow10(decimals)));
      if decimals == 0 then Ok(sign + whole)
      else
        var fraction := StripZeros(PadStart(NatText(Remainder(magnitude, Pow10(decimals))), decimals));
        Ok(if fraction == "" then sign + whole else sign + whole + "." + fraction)
  }

  /** The parts a value is printed with. */
  function PrintedParts(value: int, decimals: nat): Parts {
    var magnitude: nat := if value < 0 then -value else value;
    Parts(if value < 0 then "-" else "", NatText(Quotient(magnitude, Pow10(decimals))),
          if decimals == 0 then "" else StripZeros(PadStart(NatText(Remainder(magnitude, Pow10(decimals))), decimals)))
  }

  lemma PaddedFraction(m: nat, d: nat)
    requires d > 0 && m < Pow10(d)
    ensures var padded := PadStart(NatText(m), d);
            |padded| == d && AllDigits(padded) && NatValue(padded) == m
  {
    hide NatText, NatValue, Pow10;
    TextIsShort(m, d);
    NatRoundTrip(m);
    var t := NatText(m);
    ValueOfZeros(d - |t|);
    ValueOfConcat(Zeros(d - |t|), t);
    assert 0 * Pow10(|t|) == 0;
  }

  lemma FormatIsWritten(value: int, decimals: nat)
    requires decimals <= MAX_DECIMALS
    ensures FormatAmount(value, decimals) == Ok(Written(PrintedParts(value, decimals)))
  {
    hide NatText, StripZeros, PadStart, Quotient, Remainder, Pow10;
    var p := PrintedParts(value, decimals);
    assert p.sign + p.whole + "" == p.sign + p.whole;
    assert p.sign + p.whole + ("." + p.fraction) == p.sign + p.whole + "." + p.fraction;
  }

  /** What is printed is canonical: parts of the grammar, no leading zeros, no trailing zeros, no minus zero. */
  lemma PrintedIsCanonical(value: int, decimals: nat)
    requires decimals <= MAX_DECIMALS
    ensures var p := PrintedParts(value, decimals);
            && FormatAmount(value, decimals) == Ok(Written(p)) && IsParts(p) && |p.fraction| <= decimals
            && (p.fraction != "" ==> p.fraction[|p.fraction| - 1] != '0')
            && (|p.whole| > 1 ==> p.whole[0] != '0')
            && (p.sign == "-" <==> value < 0)
  {
    hide NatValue, Pow10, Quotient, Remainder, FormatAmount, StripZeros;
    var p := PrintedParts(value, decimals);
    FormatIsWritten(value, decimals);
    if decimals > 0 {
      var m := Remainder(if value < 0 then -value else value, Pow10(decimals));
      var padded := PadStart(NatText(m), decimals);
      PaddedFraction(m, decimals);
      assert forall i | 0 <= i < |p.fraction| :: p.fraction[i] == padded[i];
    }
  }

  lemma ParseOfWritten(p: Parts, decimals: nat)
    requires IsParts(p) && |p.fraction| <= decimals <= MAX_DECIMALS
    ensures ParseAmount(Written(p), decimals) == Ok(Signed(p.sign, UnitsOf(p, decimals)))
  {
    hide Match, IsParts, Written, UnitsOf, Signed;
    WrittenMatches(p);
  }

  /** Parsing undoes formatting, for every integer and every precision. */
  lemma RoundTrip(value: int, decimals: int)
    ensures 0 <= decimals <= MAX_DECIMALS <==> FormatAmount(value, decimals).Ok?
    ensures FormatAmount(value, decimals).Ok? ==>
              ParseAmount(FormatAmount(value, decimals).value, decimals) == Ok(value)
  {
    if 0 <= decimals <= MAX_DECIMALS {
      hide IsParts, Written, UnitsOf, FormatAmount, ParseAmount, PrintedParts;
      PrintedIsCanonical(value, decimals);
      PrintedUnits(value, decimals);
      ParseOfWritten(PrintedParts(value, decimals), decimals);
    }
  }

  lemma NoPlaces(m: nat)
    ensures Pow10(0) == 1 && Remainder(m, 1) == 0 && NatValue("") == 0
  {
  }

  lemma PrintedUnits(value: int, decimals: nat)
    requires decimals <= MAX_DECIMALS
    ensures var p := PrintedParts(value, decimals);
            IsParts(p) && UnitsOf(p, decimals) == if value < 0 then -value else value
  {
    PrintedIsCanonical(value, decimals);
    var magnitude: nat := if value < 0 then -value else value;
    var p, scale := PrintedParts(value, decimals), Pow10(decimals);
    hide NatText, NatValue, Quotient, Remainder, FormatAmount, Written;
    NatRoundTrip(Quotient(magnitude, scale));
    Division(magnitude, scale);
    if decimals > 0 {
      PaddedFraction(Remainder(magnitude, scale), decimals);
      assert PadEnd(p.fraction, decimals) == PadStart(NatText(Remainder(magnitude, scale)), decimals);
    } else {
      NoPlaces(magnitude);
    }
  }

  /** Both are refused for their precision exactly outside 0 to 255 decimals. */
  lemma PrecisionRefused(value: string, units: int, decimals: int)
    ensures ParseAmount(value, decimals) == RangeError <==> decimals < 0 || decimals > 255
    ensures FormatAmount(units, decimals) == RangeError <==> decimals < 0 || decimals > 255
  {
    hide Match, NatText, StripZeros;
  }

  // --- what a string stands for ---

  function Magnitude(p: Parts): real
    requires IsParts(p)
  {
    NatValue(p.whole) as real + NatValue(p.fraction) as real / Pow10(|p.fraction|) as real
  }

  /** The amount a string denotes, as a rational number. */
  function Amount(p: Parts): real
    requires IsParts(p)
  {
    if p.sign == "-" then -Magnitude(p) else Magnitude(p)
  }

  lemma PaddedIsScaled(f: string, d: nat)
    requires AllDigits(f) && |f| <= d
    ensures AllDigits(PadEnd(f, d)) && NatValue(PadEnd(f, d)) == NatValue(f) * Pow10(d - |f|)
    ensures Pow10(d) == Pow10(|f|) * Pow10(d - |f|)
  {
    Pow10Adds(|f|, d - |f|);
    if |f| < d {
      ValueOfZeros(d - |f|);
      ValueOfConcat(f, Zeros(d - |f|));
    }
  }

  lemma ScaleFraction(w: real, f: real, p: real, q: real)
    requires p > 0.0
    ensures (w + f / p) * (p * q) == w * (p * q) + f * q
  {
    assert f / p * (p * q) == f / p * p * q;
  }

  lemma UnitsAreExact(p: Parts, decimals: nat)
    requires IsParts(p) && |p.fraction| <= decimals
    ensures UnitsOf(p, decimals) as real == Magnitude(p) * Pow10(decimals) as real
  {
    hide NatValue, Pow10, PadEnd;
    var w, f, k := NatValue(p.whole), NatValue(p.fraction), decimals - |p.fraction|;
    PaddedIsScaled(p.fraction, decimals);
    ScaleFraction(w as real, f as real, Pow10(|p.fraction|) as real, Pow10(k) as real);
    UnitsAreReal(w, f, Pow10(|p.fraction|), Pow10(k));
  }

  lemma SignedIsExact(sign: string, units: nat, magnitude: real, scale: real)
    requires units as real == magnitude * scale
    ensures Signed(sign, units) as real == (if sign == "-" then -magnitude else magnitude) * scale
  {
    assert (-magnitude) * scale == -(magnitude * scale);
  }

  /** An accepted string is taken to exactly its amount in base units; every other string is refused. */
  lemma ParseIsExact(value: string, decimals: nat)
    requires decimals <= MAX_DECIMALS
    ensures var m := Match(value);
            if m.Some? && |m.value.fraction| <= decimals
            then IsParts(m.value) && ParseAmount(value, decimals).Ok? &&
                 ParseAmount(value, decimals).value as real == Amount(m.value) * Pow10(decimals) as real
            else ParseAmount(value, decimals) == InvalidAmount
  {
    hide Match, IsParts, UnitsOf, Signed, Magnitude, Pow10;
    var m := Match(value);
    if m.Some? && |m.value.fraction| <= decimals {
      MatchIsWritten(value);
      UnitsAreExact(m.value, decimals);
      SignedIsExact(m.value.sign, UnitsOf(m.value, decimals), Magnitude(m.value), Pow10(decimals) as real);
    }
  }

  lemma UnitsAreReal(w: nat, f: nat, p: nat, q: nat)
    ensures (w * (p * q) + f * q) as real == w as real * (p as real * q as real) + f as real * q as real
    ensures (p * q) as real == p as real * q as real
  {
    RealProduct(p, q);
    RealProduct(w, p * q);
    RealProduct(f, q);
  }

  lemma RealProduct(a: int, b: int)
    ensures (a * b) as real == a as real * b as real
  {
  }

  /** Two accepted strings format alike exactly when they denote the same amount. */
  lemma FormatAlikeIffSameAmount(s: string, t: string, decimals: nat)
    requires decimals <= MAX_DECIMALS && ParseAmount(s, decimals).Ok? && ParseAmount(t, decimals).Ok?
    ensures Match(s).Some? && IsParts(Match(s).value) && Match(t).Some? && IsParts(Match(t).value)
    ensures FormatAmount(ParseAmount(s, decimals).value, decimals) ==
            FormatAmount(ParseAmount(t, decimals).value, decimals) <==>
            Amount(Match(s).value) == Amount(Match(t).value)
  {
    hide Match, Amount, FormatAmount, ParseAmount, IsParts, Pow10;
    var a, b := ParseAmount(s, decimals).value, ParseAmount(t, decimals).value;
    ParseIsExact(s, decimals);
    ParseIsExact(t, decimals);
    RoundTrip(a, decimals);
    RoundTrip(b, decimals);
    assert FormatAmount(a, decimals) == FormatAmount(b, decimals) <==> a == b;
    assert a == b <==> a as real == b as real;
    SameScaled(Amount(Match(s).value), Amount(Match(t).value), Pow10(decimals) as real);
  }

  lemma SameScaled(x: real, y: real, scale: real)
    requires scale >= 1.0
    ensures x * scale == y * scale <==> x == y
  {
    if x * scale == y * scale {
      assert (x - y) * scale == 0.0;
    }
  }
}
