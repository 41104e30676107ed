/** Parsing a decimal USDC amount into micro-units. */
module Usdc {
  import opened Wrappers
  import opened Text

  const MICRO := 1_000_000
  const PLACES := 6

  predicate IsSpace(c: char) {
    c == ' ' || c == '\t' || c == '\n' || c == '\U{0B}' || c == '\U{0C}' || c == '\r'
  }

  function TrimStart(s: string): string {
    if s != "" && IsSpace(s[0]) then TrimStart(s[1..]) else s
  }

  function TrimEnd(s: string): string {
    if s != "" && IsSpace(s[|s| - 1]) then TrimEnd(s[..|s| - 1]) else s
  }

  function Trim(s: string): string {
    TrimEnd(TrimStart(s))
  }

  /** The text before and after the first point; all of it when there is none. */
  function SplitOnce(s: string): (string, string) {
    if s == "" then ("", "")
    else if s[0] == '.' then ("", s[1..])
    else
      var (a, b) := SplitOnce(s[1..]);
      ([s[0]] + a, b)
  }

  predicate IsDigit(c: char) {
    '0' <= c <= '9'
  }

  predicate AllDigits(s: string) {
    forall i :: 0 <= i < |s| ==> IsDigit(s[i])
  }

  function Value(s: string): nat
    requires AllDigits(s)
  {
    if s == "" then 0 else 10 * Value(s[..|s| - 1]) + (s[|s| - 1] - '0') as nat
  }

  function Unsigned(s: string): string {
    if s != "" && s[0] == '+' then s[1..] else s
  }

  /** `u64::from_str`: digits with an optional plus sign, rejected when out of range. */
  function ParseU64(s: string): (r: Option<nat>)
    ensures r.Some? ==> r.value < TWO_TO_THE_64
  {
    var digits := Unsigned(s);
    if digits != "" && AllDigits(digits) && Value(digits) < TWO_TO_THE_64 then Some(Value(digits)) else None
  }

  function Pow10(n: nat): (p: nat)
    ensures p > 0
  {
    if n == 0 then 1 else 10 * Pow10(n - 1)
  }

  function FirstSix(s: string): string {
    if |s| > PLACES then s[..PLACES] else s
  }

  function ParseDecimalPart(dec: string): Option<nat> {
    if dec == "" then Some(0)
    else
      var padded := FirstSix(dec);
      match ParseU64(padded)
      case Some(n) => Some(n * Pow10(PLACES - |padded|))
      case None => None
  }

  function ParseWhole(whole: string): Option<nat> {
    if whole == "" then Some(0) else ParseU64(whole)
  }

  /** The final sum wraps around, as in the release build. */
  function Combine(integerPart: string, decimalPart: string): (r: Option<nat>)
    ensures r.Some? ==> r.value < TWO_TO_THE_64
  {
    var integer := ParseWhole(integerPart);
    var decimal := ParseDecimalPart(decimalPart);
    if integer.Some? && decimal.Some?
    then Some((integer.value * MICRO + decimal.value) % TWO_TO_THE_64)
    else None
  }

  function ParseUsdcAmount(text: string): (r: Option<nat>)
    ensures r.Some? ==> r.value < TWO_TO_THE_64
  {
    var s := Trim(text);
    if s == "" then None
    else
      var (integerPart, decimalPart) := SplitOnce(s);
      Combine(integerPart, decimalPart)
  }

  // ---------- digits ----------

  lemma Regroup(v: nat, p: nat, w: nat, d: nat)
    ensures 10 * (v * p + w) + d == v * (10 * p) + (10 * w + d)
  {
  }

  lemma DigitsAppend(a: string, b: string)
    requires AllDigits(a) && AllDigits(b)
    ensures AllDigits(a + b)
  {
  }

  lemma {:induction false} ValueAppend(a: string, b: string)
    requires AllDigits(a) && AllDigits(b)
    ensures AllDigits(a + b) && Value(a + b) == Value(a) * Pow10(|b|) + Value(b)
  {
    DigitsAppend(a, b);
    if b == "" {
      assert a + b == a;
    } else {
      var c := b[..|b| - 1];
      ValueAppend(a, c);
      assert (a + b)[..|a + b| - 1] == a + c;
      Regroup(Value(a), Pow10(|c|), Value(c), (b[|b| - 1] - '0') as nat);
    }
  }

  lemma {:induction false} ValueBound(s: string)
    requires AllDigits(s)
    ensures Value(s) < Pow10(|s|)
  {
    if s != "" {
      ValueBound(s[..|s| - 1]);
    }
  }

  lemma {:induction false} Pow10Add(a: nat, b: nat)
    ensures Pow10(a + b) == Pow10(a) * Pow10(b)
  {
    if a > 0 {
      Pow10Add(a - 1, b);
      assert Pow10(a) * Pow10(b) == 10 * (Pow10(a - 1) * Pow10(b));
    }
  }

  lemma PowersUpToSix()
    ensures Pow10(PLACES) == MICRO
    ensures forall k: nat :: k <= PLACES ==> Pow10(k) <= MICRO
  {
    assert Pow10(3) == 1000;
    assert Pow10(6) == 1000 * Pow10(3);
  }

  // ---------- floor of value times 10^6 ----------

  /** The first six places of a fraction, in micro-units. */
  function FractionMicros(dec: string): nat
    requires AllDigits(dec)
  {
    Value(FirstSix(dec)) * Pow10(PLACES - |FirstSix(dec)|)
  }

  /** Micro-units of the number with these digits, fractional places after the sixth cut off. */
  function Micros(whole: string, dec: string): nat
    requires AllDigits(whole) && AllDigits(dec)
  {
    Value(whole) * MICRO + FractionMicros(dec)
  }

  lemma ShortIsFloor(whole: string, dec: string)
    requires AllDigits(whole) && AllDigits(dec) && |dec| <= PLACES
    ensures AllDigits(whole + dec)
    ensures Micros(whole, dec) * Pow10(|dec|) <= Value(whole + dec) * MICRO < (Micros(whole, dec) + 1) * Pow10(|dec|)
  {
    PowersUpToSix();
    ValueAppend(whole, dec);
    Pow10Add(PLACES - |dec|, |dec|);
    ShortFraction(Value(whole), Value(dec), Pow10(|dec|), Pow10(PLACES - |dec|));
  }

  lemma LongIsFloor(whole: string, dec: string)
    requires AllDigits(whole) && AllDigits(dec) && |dec| > PLACES
    ensures AllDigits(whole + dec)
    ensures Micros(whole, dec) * Pow10(|dec|) <= Value(whole + dec) * MICRO < (Micros(whole, dec) + 1) * Pow10(|dec|)
  {
    var six, rest := dec[..PLACES], dec[PLACES..];
    PowersUpToSix();
    ValueAppend(whole, six);
    assert whole + dec == (whole + six) + rest;
    ValueAppend(whole + six, rest);
    ValueBound(rest);
    Pow10Add(PLACES, |rest|);
    LongFraction(Value(whole + six), Value(rest), Pow10(|rest|));
  }

  /** `Micros` is the floor of the exact value, `Value(whole + dec) / 10^|dec|`, times 10^6. */
  lemma MicrosIsFloor(whole: string, dec: string)
    requires AllDigits(whole) && AllDigits(dec)
    ensures AllDigits(whole + dec)
    ensures Micros(whole, dec) * Pow10(|dec|) <= Value(whole + dec) * 1_000_000 < (Micros(whole, dec) + 1) * Pow10(|dec|)
  {
    if |dec| <= PLACES {
      ShortIsFloor(whole, dec);
    } else {
      LongIsFloor(whole, dec);
    }
  }

  lemma ShortFraction(i: nat, d: nat, p: nat, q: nat)
    requires p > 0 && q * p == MICRO
    ensures var n := i * MICRO + d * q; n * p <= (i * p + d) * MICRO < (n + 1) * p
  {
    var n := i * MICRO + d * q;
    calc {
      (i * p + d) * MICRO;
      i * p * MICRO + d * MICRO;
      i * MICRO * p + d * (q * p);
      i * MICRO * p + (d * q) * p;
      n * p;
    }
    assert (n + 1) * p == n * p + p;
  }

  lemma LongFraction(n: nat, v: nat, r: nat)
    requires v < r
    ensures n * (MICRO * r) <= (n * r + v) * MICRO < (n + 1) * (MICRO * r)
  {
    assert (n * r + v) * MICRO == n * (MICRO * r) + v * MICRO;
    assert (n + 1) * (MICRO * r) == n * (MICRO * r) + MICRO * r;
  }

  // ---------- what the parser returns ----------

  lemma {:induction false} SplitAtPoint(whole: string, dec: string)
    requires AllDigits(whole)
    ensures SplitOnce(whole + "." + dec) == (whole, dec)
  {
    var s := whole + "." + dec;
    if whole == "" {
      assert s == "." + dec;
    } else {
      SplitAtPoint(whole[1..], dec);
      assert s[1..] == whole[1..] + "." + dec;
      assert whole == [whole[0]] + whole[1..];
    }
  }

  lemma {:induction false} SplitWithoutPoint(whole: string)
    requires AllDigits(whole)
    ensures SplitOnce(whole) == (whole, "")
  {
    if whole != "" {
      SplitWithoutPoint(whole[1..]);
      assert whole == [whole[0]] + whole[1..];
    }
  }

  /** A decimal with a point. */
  function Written(whole: string, dec: string): string {
    whole + "." + dec
  }

  lemma WrittenIsTrimmed(whole: string, dec: string)
    requires AllDigits(whole) && AllDigits(dec)
    ensures Trim(Written(whole, dec)) == Written(whole, dec) && Written(whole, dec) != ""
  {
    var s := Written(whole, dec);
    assert !IsSpace(s[0]) && !IsSpace(s[|s| - 1]);
  }

  lemma DecimalPartParses(dec: string)
    requires AllDigits(dec)
    ensures ParseDecimalPart(dec) == Some(FractionMicros(dec))
  {
    PowersUpToSix();
    ValueBound(FirstSix(dec));
  }

  lemma WrittenIsSplit(whole: string, dec: string)
    requires AllDigits(whole) && AllDigits(dec)
    ensures ParseUsdcAmount(Written(whole, dec)) == Combine(whole, dec)
  {
    WrittenIsTrimmed(whole, dec);
    SplitAtPoint(whole, dec);
  }

  lemma WholeParses(whole: string)
    requires AllDigits(whole)
    ensures ParseWhole(whole) == if Value(whole) < TWO_TO_THE_64 then Some(Value(whole)) else None
  {
  }

  lemma CombineDigits(whole: string, dec: string)
    requires AllDigits(whole) && AllDigits(dec)
    ensures Combine(whole, dec) ==
            if Value(whole) < TWO_TO_THE_64 then Some(Micros(whole, dec) % TWO_TO_THE_64) else None
  {
    WholeParses(whole);
    DecimalPartParses(dec);
  }

  /** With digits on both sides of the point, the result is `Micros` modulo 2^64; an integer part
      out of range is rejected. */
  lemma ParseDecimal(whole: string, dec: string)
    requires AllDigits(whole) && AllDigits(dec)
    ensures ParseUsdcAmount(Written(whole, dec)) ==
            if Value(whole) < TWO_TO_THE_64 then Some(Micros(whole, dec) % TWO_TO_THE_64) else None
  {
    WrittenIsSplit(whole, dec);
    CombineDigits(whole, dec);
  }

  lemma SmallSum(whole: nat, fraction: nat)
    requires whole * MICRO + fraction < TWO_TO_THE_64
    ensures whole < TWO_TO_THE_64 && (whole * MICRO + fraction) % TWO_TO_THE_64 == whole * MICRO + fraction
  {
  }

  lemma ParseFits(whole: string, dec: string)
    requires AllDigits(whole) && AllDigits(dec) && Micros(whole, dec) < TWO_TO_THE_64
    ensures ParseUsdcAmount(Written(whole, dec)) == Some(Micros(whole, dec))
  {
    ParseDecimal(whole, dec);
    SmallSum(Value(whole), FractionMicros(dec));
  }

  /** The point may be left out when nothing follows it. */
  lemma PointIsOptional(whole: string)
    requires AllDigits(whole) && whole != ""
    ensures ParseUsdcAmount(whole) == ParseUsdcAmount(Written(whole, ""))
  {
    assert !IsSpace(whole[0]) && !IsSpace(whole[|whole| - 1]);
    SplitWithoutPoint(whole);
    WrittenIsSplit(whole, "");
  }

  /** The result is the floor of the exact value times 10^6. */
  predicate IsFloor(r: Option<nat>, whole: string, dec: string)
    requires AllDigits(whole + dec)
  {
    r.Some? && r.value * Pow10(|dec|) <= Value(whole + dec) * 1_000_000 < (r.value + 1) * Pow10(|dec|)
  }

  lemma FloorIsUnique(a: nat, b: nat, x: nat, p: nat)
    requires a * p <= x < (a + 1) * p && b * p <= x < (b + 1) * p
    ensures a == b
  {
    if a < b {
      MulMonotone(a + 1, b, p);
    } else if b < a {
      MulMonotone(b + 1, a, p);
    }
  }

  lemma MulMonotone(a: nat, b: nat, p: nat)
    requires a <= b
    ensures a * p <= b * p
  {
  }

  lemma FloorExactly(whole: string, dec: string)
    requires AllDigits(whole) && AllDigits(dec)
    ensures AllDigits(whole + dec)
    ensures IsFloor(Combine(whole, dec), whole, dec) <==> Micros(whole, dec) < TWO_TO_THE_64
  {
    MicrosIsFloor(whole, dec);
    CombineDigits(whole, dec);
    if Micros(whole, dec) < TWO_TO_THE_64 {
      SmallSum(Value(whole), FractionMicros(dec));
    } else if IsFloor(Combine(whole, dec), whole, dec) {
      FloorIsUnique(Combine(whole, dec).value, Micros(whole, dec), Value(whole + dec) * MICRO, Pow10(|dec|));
    }
  }

  // ---------- the parts of a text ----------

  /** Spaces, tabulators and line ends. */
  predicate Blank(s: string) {
    forall i :: 0 <= i < |s| ==> s[i] as int in {9, 10, 11, 12, 13, 32}
  }

  lemma IsSpaceExactly(c: char)
    ensures IsSpace(c) <==> Blank([c])
  {
    assert IsSpace(c) <==> c as int in {9, 10, 11, 12, 13, 32};
    assert [c][0] == c;
  }

  lemma BlankParts(a: string, b: string)
    ensures Blank(a + b) <==> Blank(a) && Blank(b)
  {
    assert forall i :: 0 <= i < |a| ==> (a + b)[i] == a[i];
    assert forall i :: 0 <= i < |b| ==> (a + b)[|a| + i] == b[i];
  }

  lemma {:induction false} TrimStartExactly(s: string) returns (a: string)
    ensures Blank(a) && s == a + TrimStart(s)
    ensures TrimStart(s) == "" || !IsSpace(TrimStart(s)[0])
  {
    a := "";
    if s != "" && IsSpace(s[0]) {
      var rest := TrimStartExactly(s[1..]);
      IsSpaceExactly(s[0]);
      BlankParts([s[0]], rest);
      a := [s[0]] + rest;
    }
  }

  lemma {:induction false} TrimEndExactly(s: string) returns (b: string)
    ensures Blank(b) && s == TrimEnd(s) + b
    ensures TrimEnd(s) == "" || !IsSpace(TrimEnd(s)[|TrimEnd(s)| - 1])
  {
    b := "";
    if s != "" && IsSpace(s[|s| - 1]) {
      var rest := TrimEndExactly(s[..|s| - 1]);
      IsSpaceExactly(s[|s| - 1]);
      BlankParts(rest, [s[|s| - 1]]);
      b := rest + [s[|s| - 1]];
    }
  }

  /** Trimming takes blanks, and all of them, from both ends of a text and nothing else. */
  lemma TrimExactly(text: string) returns (a: string, b: string)
    ensures Blank(a) && Blank(b) && text == a + Trim(text) + b
    ensures var t := Trim(text); t != "" ==> !Blank([t[0]]) && !Blank([t[|t| - 1]])
  {
    a := TrimStartExactly(text);
    b := TrimEndExactly(TrimStart(text));
    var t := Trim(text);
    Reassociate(a, t, b);
    if t != "" {
      assert t[0] == TrimStart(text)[0];
      IsSpaceExactly(t[0]);
      IsSpaceExactly(t[|t| - 1]);
    }
  }

  /** The text is split at its first point; without a point all of it is the whole part. */
  lemma {:induction false} SplitExactly(s: string, whole: string, dec: string)
    ensures SplitOnce(s) == (whole, dec) <==>
            '.' !in whole && (s == whole + "." + dec || (s == whole && dec == ""))
  {
    if s == "" {
    } else if s[0] == '.' {
      assert s == "" + "." + s[1..];
      assert s == whole + "." + dec && whole != "" ==> whole[0] == s[0];
    } else {
      SplitTail(s, whole, dec);
      if whole != "" {
        SplitExactly(s[1..], whole[1..], dec);
      }
    }
  }

  lemma SplitTail(s: string, whole: string, dec: string)
    requires s != "" && s[0] != '.'
    ensures SplitOnce(s) == (whole, dec) <==>
            whole != "" && whole[0] == s[0] && SplitOnce(s[1..]) == (whole[1..], dec)
    ensures s == whole + "." + dec <==> whole != "" && whole[0] == s[0] && s[1..] == whole[1..] + "." + dec
    ensures s == whole <==> whole != "" && whole[0] == s[0] && s[1..] == whole[1..]
    ensures whole != "" && whole[0] == s[0] ==> ('.' !in whole <==> '.' !in whole[1..])
  {
    if whole != "" {
      assert whole == [whole[0]] + whole[1..];
      assert whole + "." + dec == [whole[0]] + (whole[1..] + "." + dec);
    }
    assert s == [s[0]] + s[1..];
  }

  /** A plus sign may come before the digits. */
  lemma NumeralExactly(s: string)
    ensures IsNumeral(s) <==>
            exists digits :: digits != "" && (s == digits || s == "+" + digits) &&
                             forall i :: 0 <= i < |digits| ==> digits[i] in "0123456789"
  {
    DigitsListed(Unsigned(s));
    if IsNumeral(s) {
      assert s == Unsigned(s) || s == "+" + Unsigned(s);
    }
    if digits :| digits != "" && (s == digits || s == "+" + digits) &&
                 forall i :: 0 <= i < |digits| ==> digits[i] in "0123456789" {
      assert digits[0] in "0123456789";
      assert ("+" + digits)[1..] == digits;
      assert Unsigned(s) == digits;
    }
  }

  lemma DigitsListed(s: string)
    ensures AllDigits(s) <==> forall i :: 0 <= i < |s| ==> s[i] in "0123456789"
  {
    forall i | 0 <= i < |s|
      ensures IsDigit(s[i]) <==> s[i] in "0123456789"
    {
    }
  }

  // ---------- all texts ----------

  function Whole(text: string): string {
    SplitOnce(Trim(text)).0
  }

  function Fraction(text: string): string {
    SplitOnce(Trim(text)).1
  }

  /** Digits, with an optional plus sign in front. */
  predicate IsNumeral(s: string) {
    Unsigned(s) != "" && AllDigits(Unsigned(s))
  }

  /** Exactly which texts are accepted: of the fraction, six characters are looked at, and they may
      begin with a plus sign. */
  lemma AcceptedExactly(text: string)
    ensures ParseUsdcAmount(text).Some? <==>
              && Trim(text) != ""
              && (Whole(text) == "" || (IsNumeral(Whole(text)) && Value(Unsigned(Whole(text))) < 0x1_0000_0000_0000_0000))
              && (Fraction(text) == "" || IsNumeral(if |Fraction(text)| > 6 then Fraction(text)[..6] else Fraction(text)))
  {
    var digits := Unsigned(FirstSix(Fraction(text)));
    if AllDigits(digits) {
      ShortValue(digits);
    }
  }

  lemma ShortValue(s: string)
    requires AllDigits(s) && |s| <= PLACES
    ensures Value(s) < TWO_TO_THE_64
  {
    PowersUpToSix();
    ValueBound(s);
  }

  /** A decimal number: digits before the point with an optional plus sign, digits behind it, and
      either part may be empty. */
  predicate IsAmount(text: string) {
    && Trim(text) != ""
    && (Whole(text) == "" || IsNumeral(Whole(text)))
    && AllDigits(Fraction(text))
  }

  /** The text is accepted as the floor of its decimal value times 10^6. */
  predicate ReadCorrectly(text: string) {
    && IsAmount(text)
    && AllDigits(Unsigned(Whole(text)) + Fraction(text))
    && IsFloor(ParseUsdcAmount(text), Unsigned(Whole(text)), Fraction(text))
  }

  lemma AmountIsCombined(text: string)
    requires IsAmount(text)
    ensures AllDigits(Unsigned(Whole(text)))
    ensures ParseUsdcAmount(text) == Combine(Unsigned(Whole(text)), Fraction(text))
  {
    var whole := Whole(text);
    assert Unsigned(Unsigned(whole)) == Unsigned(whole);
    assert ParseWhole(whole) == ParseWhole(Unsigned(whole));
  }

  lemma AcceptedIsAmount(text: string)
    requires ParseUsdcAmount(text).Some?
    ensures IsAmount(text) <==>
              '+' !in FirstSix(Fraction(text)) && AllDigits(Fraction(text)[|FirstSix(Fraction(text))|..])
  {
    AcceptedExactly(text);
    var dec, six := Fraction(text), FirstSix(Fraction(text));
    assert dec == six + dec[|six|..];
    assert forall i :: 0 <= i < |six| ==> six[i] == dec[i];
    assert forall i :: 0 <= i < |dec| - |six| ==> dec[|six|..][i] == dec[|six| + i];
    if '+' !in six {
      assert Unsigned(six) == six;
    }
  }

  /** Exactly which texts are read correctly, of all there are: those that are accepted, have no
      plus sign among the first six characters of the fraction and only digits after them, and
      whose micro-units fit 64 bits. */
  lemma ParsedCorrectlyExactly(text: string)
    ensures ParseUsdcAmount(text).Some? ==>
              (IsAmount(text) <==>
               '+' !in FirstSix(Fraction(text)) && AllDigits(Fraction(text)[|FirstSix(Fraction(text))|..]))
    ensures IsAmount(text) ==> AllDigits(Unsigned(Whole(text)))
    ensures ReadCorrectly(text) <==>
              && ParseUsdcAmount(text).Some? && IsAmount(text)
              && Micros(Unsigned(Whole(text)), Fraction(text)) < TWO_TO_THE_64
  {
    if ParseUsdcAmount(text).Some? {
      AcceptedIsAmount(text);
    }
    if IsAmount(text) {
      AmountIsCombined(text);
      FloorExactly(Unsigned(Whole(text)), Fraction(text));
    }
  }

  /** A decimal number is rejected only when its integer part alone is out of range. */
  lemma AmountAccepted(text: string)
    requires IsAmount(text)
    ensures AllDigits(Unsigned(Whole(text)))
    ensures ParseUsdcAmount(text).Some? <==> Value(Unsigned(Whole(text))) < TWO_TO_THE_64
  {
    AmountIsCombined(text);
    CombineDigits(Unsigned(Whole(text)), Fraction(text));
  }

  lemma ZeroInFront(digits: string)
    requires AllDigits(digits)
    ensures AllDigits("0" + digits) && Value("0" + digits) == Value(digits)
  {
    assert "0"[..0] == "" && Value("0") == 0;
    ValueAppend("0", digits);
  }

  lemma EndingIsSplit(whole: string, dec: string)
    requires AllDigits(whole) && dec != "" && IsDigit(dec[|dec| - 1])
    ensures ParseUsdcAmount(Written(whole, dec)) == Combine(whole, dec)
  {
    var s := Written(whole, dec);
    assert s[0] == if whole == "" then '.' else whole[0];
    assert s[|s| - 1] == dec[|dec| - 1];
    assert Trim(s) == s;
    SplitAtPoint(whole, dec);
  }

  lemma SameFraction(whole: string, a: string, b: string)
    requires AllDigits(whole) && a != "" && b != "" && IsDigit(a[|a| - 1]) && IsDigit(b[|b| - 1])
    requires ParseDecimalPart(a) == ParseDecimalPart(b)
    ensures ParseUsdcAmount(Written(whole, a)) == ParseUsdcAmount(Written(whole, b))
  {
    CombineSame(whole, a, b);
    EndingIsSplit(whole, a);
    EndingIsSplit(whole, b);
  }

  lemma CombineSame(whole: string, a: string, b: string)
    requires ParseDecimalPart(a) == ParseDecimalPart(b)
    ensures Combine(whole, a) == Combine(whole, b)
  {
  }

  lemma PlusParsesAsZero(digits: string)
    requires AllDigits(digits) && digits != ""
    ensures ParseDecimalPart("+" + digits) == ParseDecimalPart("0" + digits)
  {
    var five := if |digits| >= PLACES then digits[..PLACES - 1] else digits;
    var plus, zero := "+" + five, "0" + five;
    ZeroInFront(five);
    assert plus[1..] == five;
    assert Unsigned(plus) == five && Unsigned(zero) == zero;
    FirstSixWithHead('+', digits, five);
    FirstSixWithHead('0', digits, five);
  }

  lemma FirstSixWithHead(c: char, s: string, five: string)
    requires five == if |s| >= PLACES then s[..PLACES - 1] else s
    ensures FirstSix([c] + s) == [c] + five
  {
  }

  /** A plus sign behind the point is accepted and read as a zero, so the fraction counts for a
      tenth of its digits. */
  lemma PlusIsReadAsZero(whole: string, digits: string)
    requires AllDigits(whole) && AllDigits(digits) && digits != ""
    ensures ParseUsdcAmount(Written(whole, "+" + digits)) == ParseUsdcAmount(Written(whole, "0" + digits))
  {
    PlusParsesAsZero(digits);
    SameFraction(whole, "+" + digits, "0" + digits);
  }

  lemma OneAndFiveHundredths()
    ensures AllDigits("1") && AllDigits("05") && Micros("1", "05") == 1_050_000
  {
    assert "1"[..0] == "" && "05"[..1] == "0" && "0"[..0] == "";
    assert Value("1") == 1 && Value("0") == 0 && Value("05") == 5;
    assert Pow10(4) == 100 * Pow10(2);
  }

  /** So one and a half, written with a plus sign, is accepted as one and five hundredths. */
  lemma OnePlusFive()
    ensures ParseUsdcAmount("1.+5") == Some(1_050_000)
  {
    PlusIsReadAsZero("1", "5");
    assert Written("1", "+" + "5") == "1.+5" && "0" + "5" == "05";
    OneAndFiveHundredths();
    ParseFits("1", "05");
  }

  /** The value of the first decimal is at most the value of the second. */
  predicate NotLarger(i1: string, d1: string, i2: string, d2: string)
    requires AllDigits(i1 + d1) && AllDigits(i2 + d2)
  {
    Value(i1 + d1) * Pow10(|d2|) <= Value(i2 + d2) * Pow10(|d1|)
  }

  lemma MicrosAreMonotone(i1: string, d1: string, i2: string, d2: string)
    requires AllDigits(i1) && AllDigits(d1) && AllDigits(i2) && AllDigits(d2)
    requires AllDigits(i1 + d1) && AllDigits(i2 + d2) && NotLarger(i1, d1, i2, d2)
    ensures Micros(i1, d1) <= Micros(i2, d2)
  {
    MicrosIsFloor(i1, d1);
    MicrosIsFloor(i2, d2);
    FloorsAreMonotone(Micros(i1, d1), Value(i1 + d1), Pow10(|d1|), Micros(i2, d2), Value(i2 + d2), Pow10(|d2|));
  }

  /** A decimal that is not larger does not parse to more. */
  lemma ParseIsMonotone(i1: string, d1: string, i2: string, d2: string)
    requires AllDigits(i1) && AllDigits(d1) && AllDigits(i2) && AllDigits(d2)
    requires AllDigits(i1 + d1) && AllDigits(i2 + d2) && NotLarger(i1, d1, i2, d2)
    requires Micros(i2, d2) < TWO_TO_THE_64
    ensures var r1, r2 := ParseUsdcAmount(Written(i1, d1)), ParseUsdcAmount(Written(i2, d2));
            r1.Some? && r2.Some? && r1.value <= r2.value
  {
    MicrosAreMonotone(i1, d1, i2, d2);
    ParseFits(i1, d1);
    ParseFits(i2, d2);
  }

  lemma Cancel(a: nat, b: nat, p: nat)
    requires p > 0 && a * p <= b * p
    ensures a <= b
  {
    if a > b {
      MulMonotone(b + 1, a, p);
    }
  }

  /** A larger floor of a value that is not larger would be a floor of the other value too. */
  lemma LargerFloor(n1: nat, v1: nat, p1: nat, n2: nat, v2: nat, p2: nat)
    requires p1 > 0 && p2 > 0 && v1 * p2 <= v2 * p1
    requires n1 * p1 <= v1 * MICRO && n2 + 1 <= n1
    ensures (n2 + 1) * p2 <= v2 * MICRO
  {
    var x := n2 + 1;
    calc {
      (x * p2) * p1;
    == { Swap(x, p2, p1); }
      (x * p1) * p2;
    <= { MulMonotone(x, n1, p1); MulMonotone(x * p1, v1 * MICRO, p2); }
      (v1 * MICRO) * p2;
    == { Swap(v1, MICRO, p2); }
      (v1 * p2) * MICRO;
    <= { MulMonotone(v1 * p2, v2 * p1, MICRO); }
      (v2 * p1) * MICRO;
    == { Swap(v2, p1, MICRO); }
      (v2 * MICRO) * p1;
    }
    Cancel(x * p2, v2 * MICRO, p1);
  }

  lemma Swap(a: nat, b: nat, c: nat)
    ensures (a * b) * c == (a * c) * b
  {
  }

  lemma FloorsAreMonotone(n1: nat, v1: nat, p1: nat, n2: nat, v2: nat, p2: nat)
    requires p1 > 0 && p2 > 0 && v1 * p2 <= v2 * p1
    requires n1 * p1 <= v1 * MICRO && v2 * MICRO < (n2 + 1) * p2
    ensures n1 <= n2
  {
    if n1 > n2 {
      LargerFloor(n1, v1, p1, n2, v2, p2);
    }
  }

  lemma ZerosKeepMicros(whole: string, dec: string, zeros: string)
    requires AllDigits(whole) && AllDigits(dec) && forall i :: 0 <= i < |zeros| ==> zeros[i] == '0'
    ensures AllDigits(dec + zeros) && Micros(whole, dec + zeros) == Micros(whole, dec)
  {
    ValueAppend(whole, dec);
    ValueOfZeros(zeros);
    assert whole + (dec + zeros) == (whole + dec) + zeros;
    ValueAppend(whole + dec, zeros);
    Pow10Add(|dec|, |zeros|);
    MicrosIsFloor(whole, dec);
    MicrosIsFloor(whole, dec + zeros);
    SameRatio(Micros(whole, dec), Micros(whole, dec + zeros), Value(whole + dec), Pow10(|dec|), Pow10(|zeros|));
  }

  lemma SameRatio(n: nat, m: nat, v: nat, p: nat, z: nat)
    requires p > 0 && z > 0
    requires n * p <= v * MICRO < (n + 1) * p
    requires m * (p * z) <= (v * z) * MICRO < (m + 1) * (p * z)
    ensures n == m
  {
    assert p * z > 0;
    assert v * (p * z) == (v * z) * p;
    FloorsAreMonotone(n, v, p, m, v * z, p * z);
    FloorsAreMonotone(m, v * z, p * z, n, v, p);
  }

  /** Zeros at the end of the fraction change nothing. */
  lemma TrailingZerosIgnored(whole: string, dec: string, zeros: string)
    requires AllDigits(whole) && AllDigits(dec) && forall i :: 0 <= i < |zeros| ==> zeros[i] == '0'
    ensures ParseUsdcAmount(Written(whole, dec + zeros)) == ParseUsdcAmount(Written(whole, dec))
  {
    ZerosKeepMicros(whole, dec, zeros);
    ParseDecimal(whole, dec);
    ParseDecimal(whole, dec + zeros);
  }

  lemma {:induction false} ValueOfZeros(zeros: string)
    requires forall i :: 0 <= i < |zeros| ==> zeros[i] == '0'
    ensures AllDigits(zeros) && Value(zeros) == 0
  {
    if zeros != "" {
      ValueOfZeros(zeros[..|zeros| - 1]);
    }
  }

  // ---------- the round trip ----------

  /** Decimal digits of `n`, at least `width` of them. */
  function Digits(n: nat, width: nat): (s: string)
    ensures |s| >= width && (n < Pow10(width) ==> |s| == width)
    ensures AllDigits(s) && Value(s) == n
    decreases n, width
  {
    if n == 0 && width == 0 then ""
    else
      var s := Digits(n / 10, if width == 0 then 0 else width - 1) + [(n % 10) as char + '0'];
      assert s[..|s| - 1] == Digits(n / 10, if width == 0 then 0 else width - 1);
      s
  }

  /** The canonical rendering of micro-units, with six fractional digits. */
  function Render(n: nat): string {
    Written(Digits(n / MICRO, 1), Digits(n % MICRO, PLACES))
  }

  /** Parsing inverts rendering for every 64-bit amount. */
  lemma ParseInvertsRender(n: nat)
    requires n < TWO_TO_THE_64
    ensures ParseUsdcAmount(Render(n)) == Some(n)
  {
    var whole, dec := Digits(n / MICRO, 1), Digits(n % MICRO, PLACES);
    MicrosOfRendering(n);
    ParseFits(whole, dec);
  }

  lemma MicrosOfRendering(n: nat)
    ensures Micros(Digits(n / MICRO, 1), Digits(n % MICRO, PLACES)) == n
  {
    PowersUpToSix();
    var dec := Digits(n % MICRO, PLACES);
    assert FirstSix(dec) == dec && Pow10(0) == 1;
  }

  /** So does parsing an integer invert its digits. */
  lemma ParseInvertsDigits(n: nat)
    requires n < TWO_TO_THE_64
    ensures ParseU64(Digits(n, 1)) == Some(n) && Digits(n, 1) != "" && Digits(n, 1) != "null"
  {
    assert IsDigit(Digits(n, 1)[0]);
  }

  // ---------- what the parser does not look at ----------

  lemma {:induction false} TrimEndKeepsHead(head: string, tail: string)
    requires head != "" && !IsSpace(head[|head| - 1])
    ensures TrimEnd(head + tail) == head + TrimEnd(tail)
    decreases |tail|
  {
    if tail == "" {
      assert head + tail == head;
    } else if IsSpace(tail[|tail| - 1]) {
      assert (head + tail)[..|head + tail| - 1] == head + tail[..|tail| - 1];
      TrimEndKeepsHead(head, tail[..|tail| - 1]);
    }
  }

  /** Nothing after the sixth fractional digit is inspected, whatever it is. */
  lemma FractionTailIsNotInspected(whole: string, six: string, tail: string)
    requires AllDigits(whole) && AllDigits(six) && |six| == 6
    ensures ParseUsdcAmount(Written(whole, six) + tail) == ParseUsdcAmount(Written(whole, six))
  {
    var head := Written(whole, six);
    WrittenIsTrimmed(whole, six);
    assert TrimStart(head + tail) == head + tail by { assert !IsSpace((head + tail)[0]); }
    TrimEndKeepsHead(head, tail);
    var rest := TrimEnd(tail);
    assert head + rest == Written(whole, six + rest);
    SplitAtPoint(whole, six + rest);
    SplitAtPoint(whole, six);
    assert FirstSix(six + rest) == six == FirstSix(six);
  }
}
