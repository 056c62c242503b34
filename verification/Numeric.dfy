/** Integer literals: 128-bit magnitude with a sign (src/base/numeric.c). */
module Numeric {
  import opened Wrappers
  import opened Words
  import opened Limbs

  const WORD32 := 0x1_0000_0000
  const WORD64 := 0x1_0000_0000_0000_0000
  const MAX_LITERAL_DIGITS := 512

  type Word64 = x: int | 0 <= x < WORD64

  datatype Integer = Integer(low: Word64, high: Word64, negative: bool)
  {
    ghost function Magnitude(): int { high * WORD64 + low }
    ghost function Value(): int { if negative then -Magnitude() else Magnitude() }
  }

  function DigitOf(c: char): (d: nat)
    ensures d <= 16
  {
    if '0' <= c <= '9' then c as int - '0' as int
    else if 'a' <= c <= 'f' then c as int - 'a' as int + 10
    else if 'A' <= c <= 'F' then c as int - 'A' as int + 10
    else 16
  }

  /** Hexadecimal digits in either case have their usual values, and no other character is a digit. */
  lemma {:induction false} DigitMeaning(c: char, d: nat)
    requires d < 16
    ensures DigitOf(c) == d <==> c == "0123456789abcdef"[d] || c == "0123456789ABCDEF"[d]
  {
    if '0' <= c <= '9' { assert c == ('0' as int + DigitOf(c)) as char; }
    if 'a' <= c <= 'f' { assert c == ('a' as int + (DigitOf(c) - 10)) as char; }
    if 'A' <= c <= 'F' { assert c == ('A' as int + (DigitOf(c) - 10)) as char; }
  }

  /** Positional value of a digit string, most significant digit first. */
  ghost function DigitsValue(ds: string, radix: nat): nat {
    if ds == "" then 0
    else DigitsValue(ds[..|ds| - 1], radix) * radix + DigitOf(ds[|ds| - 1])
  }

  ghost predicate AllDigits(ds: string, radix: nat) {
    forall i :: 0 <= i < |ds| ==> DigitOf(ds[i]) < radix
  }

  /** The text without its optional sign. */
  function Unsigned(text: string): string {
    if text != "" && (text[0] == '-' || text[0] == '+') then text[1..] else text
  }

  /** What the literal grammar accepts: 1 to 512 digits of the radix, magnitude below 2^128. */
  ghost predicate Acceptable(text: string, radix: nat) {
    && 2 <= radix <= 16
    && 1 <= |Unsigned(text)| <= MAX_LITERAL_DIGITS
    && AllDigits(Unsigned(text), radix)
    && DigitsValue(Unsigned(text), radix) < WORD64 * WORD64
  }

  lemma {:induction false} StepUp(v: nat, radix: nat, digit: nat)
    requires radix >= 1
    ensures v <= v * radix + digit
  {
    MulLe(1, radix, v);
  }

  lemma {:induction false} PrefixValueSmaller(ds: string, radix: nat, n: nat)
    requires n <= |ds| && radix >= 1
    ensures DigitsValue(ds[..n], radix) <= DigitsValue(ds, radix)
    decreases |ds| - n
  {
    if n == |ds| {
      assert ds[..n] == ds;
    } else {
      PrefixValueSmaller(ds, radix, n + 1);
      assert ds[..n + 1][..n] == ds[..n];
      StepUp(DigitsValue(ds[..n], radix), radix, DigitOf(ds[n]));
    }
  }

  lemma {:induction false} FourWords(w: seq<int>)
    requires |w| == 4
    ensures Val(w) == w[0] + w[1] * WORD32 + w[2] * WORD64 + w[3] * (WORD32 * WORD64)
    ensures Weight(4) == WORD64 * WORD64
  {
    ValPrefix(w, 0); ValPrefix(w, 1); ValPrefix(w, 2); ValPrefix(w, 3);
    assert w[..4] == w;
    assert Weight(1) == WORD32 && Weight(2) == WORD64 && Weight(3) == WORD32 * WORD64;
  }

  lemma {:induction false} CarryDecides(v: int, carry: int)
    requires 0 <= v < WORD64 * WORD64 && carry >= 0
    ensures carry == 0 <==> v + carry * (WORD64 * WORD64) < WORD64 * WORD64
  {
  }

  /** One step of the accumulation: the four-word product with carry. */
  method MultiplyAdd(value: Integer, radix: nat, digit: nat) returns (r: Option<Integer>)
    requires 2 <= radix <= 16 && digit < radix
    ensures r.Some? <==> value.Magnitude() * radix + digit < WORD64 * WORD64
    ensures r.Some? ==> r.value.negative == value.negative
                        && r.value.Magnitude() == value.Magnitude() * radix + digit
  {
    hide Val, Weight;
    var words := new int[4];
    words[0], words[1] := value.low % WORD32, value.low / WORD32;
    words[2], words[3] := value.high % WORD32, value.high / WORD32;
    FourWords(words[..]);
    assert words[..4] == words[..];
    var carry := MultiplyAddInPlace(words, 4, radix, digit);
    FourWords(words[..]);
    assert words[..4] == words[..];
    ValBounds(words[..]);
    CarryDecides(Val(words[..]), carry);
    if carry != 0 {
      return None;
    }
    r := Some(Integer(words[1] * WORD32 + words[0], words[3] * WORD32 + words[2], value.negative));
  }

  /** A literal is accepted exactly when it is well formed and its magnitude fits in 128 bits. */
  method IntegerParse(text: string, radix: nat) returns (r: Option<Integer>)
    ensures r.Some? <==> Acceptable(text, radix)
    ensures r.Some? ==> r.value.Magnitude() == DigitsValue(Unsigned(text), radix)
                        && r.value.negative == (text != "" && text[0] == '-')
  {
    if radix < 2 || radix > 16 { return None; }
    var digits := text;
    var value := Integer(0, 0, false);
    if digits != "" && digits[0] == '-' {
      value := value.(negative := true);
      digits := digits[1..];
    } else if digits != "" && digits[0] == '+' {
      digits := digits[1..];
    }
    if digits == "" { return None; }
    var count := 0;
    while count < |digits|
      invariant 0 <= count <= |digits| && count <= MAX_LITERAL_DIGITS
      invariant AllDigits(digits[..count], radix)
      invariant value.Magnitude() == DigitsValue(digits[..count], radix)
      invariant value.negative == (text[0] == '-')
    {
      if count + 1 > MAX_LITERAL_DIGITS { return None; }
      var digit := DigitOf(digits[count]);
      if digit >= radix { return None; }
      assert digits[..count + 1][..count] == digits[..count];
      PrefixValueSmaller(digits, radix, count + 1);
      var next := MultiplyAdd(value, radix, digit);
      if next == None { return None; }
      value := next.value;
      count := count + 1;
    }
    assert digits[..count] == digits;
    r := Some(value);
  }

  /** Whether a literal may be given a type of this width and signedness. */
  function IntegerFits(value: Integer, bits: nat, signed: bool): bool {
    if bits == 0 || bits > 128 then false
    else if !signed && value.negative && (value.high != 0 || value.low != 0) then false
    else
      var magnitudeBits := bits - (if signed then 1 else 0);
      if magnitudeBits == 128 then true
      else
        var high := if magnitudeBits >= 64 then Pow2(magnitudeBits - 64) else 0;
        var low := if magnitudeBits < 64 then Pow2(magnitudeBits) else 0;
        if value.high < high || (value.high == high && value.low < low) then true
        else signed && value.negative && value.high == high && value.low == low
  }

  /** The mathematical range of an integer type. */
  ghost predicate InRange(v: int, bits: nat, signed: bool)
    requires bits >= 1
  {
    if signed then -Pow2(bits - 1) <= v < Pow2(bits - 1) else 0 <= v < Pow2(bits)
  }

  lemma {:induction false} FitsIsRange(value: Integer, bits: nat, signed: bool)
    requires 1 <= bits <= 128
    ensures IntegerFits(value, bits, signed) <==> InRange(value.Value(), bits, signed)
  {
    hide Pow2;
    var m: nat := bits - (if signed then 1 else 0);
    var high, low := if m >= 64 then Pow2(m - 64) else 0, if m < 64 then Pow2(m) else 0;
    PowerSplit(m);
    if m < 128 {
      Lexicographic(value.high, value.low, high, low);
      assert Pow2(m) == high * WORD64 + low;
      assert value.Magnitude() < Pow2(m) <==> value.high < high || (value.high == high && value.low < low);
    }
    Sign(value.high, value.low);
  }

  lemma {:induction false} Sign(high: Word64, low: Word64)
    ensures high * WORD64 + low >= 0
    ensures high * WORD64 + low == 0 <==> high == 0 && low == 0
    ensures high * WORD64 + low < WORD64 * WORD64
  {
  }

  /** 2^m as a two-word number. */
  lemma {:induction false} PowerSplit(m: nat)
    requires m <= 128
    ensures m < 64 ==> Pow2(m) < WORD64
    ensures m >= 64 ==> Pow2(m) == Pow2(m - 64) * WORD64
    ensures Pow2(128) == WORD64 * WORD64
  {
    Pow2Values();
    Pow2Add(64, 64);
    if m < 64 {
      Pow2Mono(m, 63);
    } else {
      Pow2Add(64, m - 64);
    }
  }

  lemma {:induction false} Lexicographic(a: int, b: int, c: int, d: int)
    requires 0 <= b < WORD64 && 0 <= d < WORD64
    ensures a * WORD64 + b < c * WORD64 + d <==> a < c || (a == c && b < d)
    ensures a * WORD64 + b == c * WORD64 + d <==> a == c && b == d
  {
  }
}
