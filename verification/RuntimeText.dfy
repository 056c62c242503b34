/** Integers to text and back, and checked conversions between integer types, in the C runtime
    (src/backend/runtime_conversion.c). */
module RuntimeText {
  import opened Wrappers
  import opened Words
  import opened Numeric
  import opened DecimalText
  import opened RuntimeArithmetic

  const MAX_TEXT := 4096

  datatype Error = Format | Range | Length

  datatype Parsed = Good(value: U128) | Bad(error: Error)

  // ----- parsing -----

  predicate Negative(text: string) { text != "" && text[0] == '-' }

  /** The integer a text with digits denotes. */
  ghost function Denotes(text: string): int {
    if Negative(text) then 0 - DigitsValue(Unsigned(text), 10) else DigitsValue(Unsigned(text), 10)
  }

  /** An optional sign and then digits, at least one, fewer than 4096 characters in all. */
  ghost predicate WellFormed(text: string) {
    Unsigned(text) != "" && AllDigits(Unsigned(text), 10) && |text| < MAX_TEXT
  }

  lemma {:induction false} DigitChar10(c: char)
    ensures DigitOf(c) < 10 <==> '0' <= c <= '9'
  {
  }

  /** The overflow test before a digit is taken in. */
  lemma {:induction false} LimitTest(result: nat, digit: nat, limit: nat)
    requires digit < 10
    ensures result > limit / 10 || (result == limit / 10 && digit > limit % 10) <==> result * 10 + digit > limit
  {
  }

  /** Largest magnitude allowed. */
  function Limit(bits: nat, signed: bool, negative: bool): U128
    requires Width(bits)
  {
    WidthFacts(bits);
    if !signed then Mask(bits) else if negative then SignBit(bits) else SignBit(bits) - 1
  }

  lemma {:induction false} LimitIsRange(m: nat, bits: nat, signed: bool, negative: bool)
    requires Width(bits) && (negative ==> signed)
    ensures m <= Limit(bits, signed, negative) <==> InRange(if negative then 0 - m else m, bits, signed)
  {
    WidthFacts(bits);
    MaskIsMod(0, bits);
  }

  method ParseInteger(text: Option<string>, bits: nat, signed: bool) returns (r: Parsed)
    requires Width(bits)
    ensures r.Good? <==>
      text.Some? && WellFormed(text.value) && (Negative(text.value) ==> signed) && InRange(Denotes(text.value), bits, signed)
    ensures r.Good? ==> r.value == Cast(Denotes(text.value)) && Read(r.value, bits, signed) == Denotes(text.value)
  {
    hide Pow2, Read, Limit, DigitsValue, DigitOf;
    if text == None || text.value == "" { return Bad(Format); }
    var t := text.value;
    var negative := t[0] == '-';
    var start := if negative || t[0] == '+' then 1 else 0;
    if start == |t| { return Bad(Format); }
    if negative && !signed { return Bad(Range); }
    var limit := Limit(bits, signed, negative);
    ghost var digits := t[start..];
    assert digits == Unsigned(t);
    var result: int := 0;
    var i := start;
    NoDigits();
    while i < MAX_TEXT && i < |t|
      invariant start <= i <= |t| && i <= MAX_TEXT && 0 <= result <= limit
      invariant AllDigits(digits[..i - start], 10) && result == DigitsValue(digits[..i - start], 10)
    {
      DigitChar10(t[i]);
      assert digits[i - start] == t[i];
      if t[i] < '0' || t[i] > '9' { return Bad(Format); }
      var digit := DigitOf(t[i]);
      LimitTest(result, digit, limit);
      ghost var longer := digits[..i + 1 - start];
      assert longer[..|longer| - 1] == digits[..i - start] && longer[|longer| - 1] == t[i];
      OneMoreDigit(longer);
      PrefixValueSmaller(digits, 10, i + 1 - start);
      LimitIsRange(DigitsValue(digits, 10), bits, signed, negative);
      if result > limit / 10 || (result == limit / 10 && digit > limit % 10) { return Bad(Range); }
      result := result * 10 + digit;
      i := i + 1;
    }
    if i == MAX_TEXT { return Bad(Length); }
    assert digits[..i - start] == digits;
    LimitIsRange(result, bits, signed, negative);
    var value: int := if negative then 0 - result else result;
    r := Good(Cast(value));
    ReadsBack(value, bits, signed);
  }

  lemma {:induction false} NoDigits()
    ensures DigitsValue("", 10) == 0
  {
  }

  lemma {:induction false} OneMoreDigit(ds: string)
    requires ds != ""
    ensures DigitsValue(ds, 10) == DigitsValue(ds[..|ds| - 1], 10) * 10 + DigitOf(ds[|ds| - 1])
  {
  }

  /** A value in range survives being kept in a 128-bit word. */
  lemma {:induction false} ReadsBack(v: int, bits: nat, signed: bool)
    requires Width(bits) && InRange(v, bits, signed)
    ensures Read(Cast(v), bits, signed) == v
  {
    hide Pow2, Signed, Wrap;
    WidthFacts(bits);
    CastKeeps(v, bits);
    WrapOfCongruent(bits, signed, Cast(v), v);
    WrapInRange(bits, signed, v);
    if !signed { ModUnique(v, WORD128, 0, v); }
    ReadIsWrap(Cast(v), bits, signed);
  }

  /** Where parsing is stricter than the range alone: an unsigned target refuses any minus sign. */
  method MinusZeroRefused(bits: nat) returns (r: Parsed)
    requires Width(bits)
    ensures WellFormed("-0") && Denotes("-0") == 0 && InRange(0, bits, false) && r.Bad?
  {
    assert Unsigned("-0") == "0";
    assert "0"[..0] == "";
    OneMoreDigit("0");
    NoDigits();
    r := ParseInteger(Some("-0"), bits, false);
  }

  // ----- printing -----

  /** Forty cells are enough for every 128-bit number. */
  lemma {:induction false} FortyCells()
    ensures WORD128 <= Pow10(39)
  {
    hide Pow10;
    SmallTens();
    TenPowers(5, 5);
    TenPowers(10, 3);
    TenPowers(13, 13);
    TenPowers(26, 13);
  }

  lemma {:induction false} SmallTens()
    ensures Pow10(3) == 1000 && Pow10(5) == 100000
  {
  }

  lemma {:induction false} TenPowers(m: nat, n: nat)
    ensures Pow10(m + n) == Pow10(m) * Pow10(n)
  {
    if m > 0 {
      TenPowers(m - 1, n);
      MulAssoc(10, Pow10(m - 1), Pow10(n));
    }
  }

  /** Digits of a number in a 40-character buffer, lowest first. */
  method FillDigits(value: U128, digits: array<char>) returns (used: nat)
    requires digits.Length == 40
    modifies digits
    ensures 1 <= used <= 40 && DigitChars(digits[..used]) && Reading(digits[..used]) == value
    ensures used > 1 ==> digits[used - 1] != '0'
  {
    hide Pow10, Reading, DigitOf;
    FortyCells();
    var rest: nat := value;
    used := 0;
    assert digits[..0] == "";
    NothingRead(value);
    var more := true;
    while more
      invariant 0 <= used <= 40 && DigitChars(digits[..used]) && rest == value / Pow10(used)
      invariant Reading(digits[..used]) == value % Pow10(used)
      invariant more <==> used == 0 || rest != 0
      invariant used > 0 ==> used <= 39 && (used > 1 && rest == 0 ==> digits[used - 1] != '0')
      decreases used == 0, rest
    {
      BufferRoom(value, used, rest);
      ghost var before := digits[..used];
      DigitOfNumber(value, used);
      var c := DigitChar(rest % 10);
      ReadingSnoc(before, c);
      DigitChars1(c);
      digits[used] := c;
      assert digits[..used + 1] == before + [c];
      used := used + 1;
      rest := rest / 10;
      more := rest != 0;
    }
    AllRead(value, used);
  }

  lemma {:induction false} NothingRead(value: nat)
    ensures value / Pow10(0) == value && value % Pow10(0) == 0 && Reading("") == 0
  {
  }

  lemma {:induction false} BufferRoom(value: U128, used: nat, rest: nat)
    requires rest == value / Pow10(used) && (used == 0 || rest != 0) && used <= 40
    ensures used < 39
  {
    hide Pow10;
    if used >= 39 {
      FortyCells();
      Pow10Mono(39, used);
      ModUnique(value, Pow10(used), 0, value);
    }
  }

  lemma {:induction false} AllRead(value: nat, used: nat)
    requires value / Pow10(used) == 0
    ensures value % Pow10(used) == value
  {
    var p := Pow10(used);
    assert value == (value / p) * p + value % p;
  }

  method UnsignedString(value: U128) returns (text: string)
    ensures text == Decimal(value)
  {
    var digits := new char[40];
    var used := FillDigits(value, digits);
    ReverseIsDecimal(digits[..used]);
    text := CopyReversed(digits, used);
  }

  /** result[i] = digits[used - i - 1]. */
  method CopyReversed(digits: array<char>, used: nat) returns (text: string)
    requires used <= digits.Length
    ensures text == Reverse(digits[..used])
  {
    text := "";
    var i := 0;
    while i < used
      invariant 0 <= i <= used && text + Reverse(digits[..used - i]) == Reverse(digits[..used])
    {
      ghost var ds := digits[..used - i];
      ReverseSnoc(ds[..|ds| - 1], ds[|ds| - 1]);
      assert ds == ds[..|ds| - 1] + [ds[|ds| - 1]] && ds[..|ds| - 1] == digits[..used - i - 1];
      text := text + [digits[used - i - 1]];
      i := i + 1;
    }
    assert digits[..0] == "";
  }

  lemma {:induction false} ReverseSnoc(ds: string, c: char)
    ensures Reverse(ds + [c]) == [c] + Reverse(ds)
  {
    if ds == "" {
      assert ds + [c] == [c] && [c][1..] == "";
    } else {
      ReverseSnoc(ds[1..], c);
      assert (ds + [c])[1..] == ds[1..] + [c];
    }
  }

  /** The usual notation of integers. */
  function SignedDecimal(v: int): string { if v < 0 then "-" + Decimal(-v) else Decimal(v) }

  method SignedString(value: int) returns (text: string)
    requires InRange(value, 128, true)
    ensures text == SignedDecimal(value)
  {
    WidthFacts(128);
    if value >= 0 {
      text := UnsignedString(value);
      return;
    }
    ModUnique(0 - Cast(value), WORD128, -1, -value);
    ModUnique(value, WORD128, -1, value + WORD128);
    var magnitude := Cast(0 - Cast(value));
    var digits := new char[40];
    var used := FillDigits(magnitude, digits);
    ReverseIsDecimal(digits[..used]);
    text := CopyReversed(digits, used);
    text := "-" + text;
  }

  // ----- round trip -----

  lemma {:induction false} DecimalLength(n: nat, k: nat)
    requires k >= 1 && n < Pow10(k)
    ensures |Decimal(n)| <= k
  {
    if n >= 10 { DecimalLength(n / 10, k - 1); }
  }

  /** What is printed for an integer of any width parses at that width, to the same integer. */
  lemma {:induction false} TextRoundTrip(v: int, bits: nat, signed: bool)
    requires Width(bits) && InRange(v, bits, signed)
    ensures var text := SignedDecimal(v);
      WellFormed(text) && (Negative(text) ==> signed) && Denotes(text) == v
  {
    hide Pow10, Pow2, DigitOf;
    var m: nat := if v < 0 then -v else v;
    WidthFacts(bits);
    FortyCells();
    DecimalReads(m);
    DecimalLength(m, 39);
    assert Unsigned(SignedDecimal(v)) == Decimal(m);
  }

  // ----- checked conversion between integer types -----

  /** An integer in a value box: signed ones in a signed 128-bit field, the others in an unsigned one. */
  datatype Boxed = BoxedSigned(s: int) | BoxedUnsigned(u: U128)

  function Content(b: Boxed): int { match b case BoxedSigned(s) => s case BoxedUnsigned(u) => u }

  /** Succeeds exactly when the target type has the value, and then preserves it. */
  method CheckedInteger(source: Boxed, bits: nat, signed: bool) returns (r: Option<Boxed>)
    requires Width(bits) && (source.BoxedSigned? ==> InRange(source.s, 128, true))
    ensures r.Some? <==> InRange(Content(source), bits, signed)
    ensures r.Some? ==> Content(r.value) == Content(source) && (r.value.BoxedSigned? <==> signed)
  {
    hide Pow2, Limit;
    WidthFacts(128);
    var negative := source.BoxedSigned? && source.s < 0;
    Magnitude(Content(source));
    var magnitude: U128 :=
      match source
      case BoxedSigned(s) => if negative then Cast(0 - Cast(s)) else Cast(s)
      case BoxedUnsigned(u) => u;
    if negative && !signed { return None; }
    LimitIsRange(magnitude, bits, signed, negative);
    if magnitude > Limit(bits, signed, negative) { return None; }
    r := Some(if signed then BoxedSigned(if negative then -1 - (magnitude - 1) else magnitude) else BoxedUnsigned(magnitude));
  }

  lemma {:induction false} Magnitude(v: int)
    requires -WORD128 < v < WORD128
    ensures v < 0 ==> Cast(0 - Cast(v)) == -v
    ensures v >= 0 ==> Cast(v) == v
  {
    if v < 0 {
      ModUnique(v, WORD128, -1, v + WORD128);
      ModUnique(0 - (v + WORD128), WORD128, -1, -v);
    } else {
      ModUnique(v, WORD128, 0, v);
    }
  }
}
