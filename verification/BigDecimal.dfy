/** Decimal text of big integers (reo_big_from_dec and reo_big_to_dec in libs/bigint/bigint.c). */
module BigDecimal {
  import opened Wrappers
  import opened Words
  import opened Limbs
  import opened Numeric
  import opened BigInt
  import opened DecimalText

  // ----- reading -----

  function WithoutPlus(text: string): string { if text != "" && text[0] == '+' then text[1..] else text }

  ghost predicate IsDecimal(text: string) {
    WithoutPlus(text) != "" && forall i :: 0 <= i < |WithoutPlus(text)| ==> '0' <= WithoutPlus(text)[i] <= '9'
  }

  /** Append a limb for a carry out of the top; the carry is below ten, so one is enough. */
  method AppendCarry(acc: Big, carry: int)
    requires acc.WellFormed() && 0 <= carry < BASE && acc.len == acc.limbs.Length
    modifies acc
    ensures acc.WellFormed() && acc.len == acc.limbs.Length && (acc.limbs == old(acc.limbs) || fresh(acc.limbs))
    ensures acc.Number() == old(acc.Number()) + carry * Weight(old(acc.len))
  {
    hide Val, Weight;
    ghost var n := acc.len;
    if carry != 0 {
      ghost var s := acc.limbs[..acc.len];
      Grow(acc, acc.len);
      ValUpdate(acc.limbs[..acc.len], |s|, carry);
      ghost var zeros := acc.limbs[..acc.len];
      assert zeros[|s|] == 0;
      acc.limbs[acc.len - 1] := carry;
      assert acc.limbs[..acc.len] == zeros[|s| := carry];
    } else {
      assert carry * Weight(n) == 0;
    }
  }

  /** Exactly the decimal texts are accepted, with their value. */
  method FromDec(text: Option<string>) returns (r: Big?)
    ensures r == null <==> text == None || !IsDecimal(text.value)
    ensures r != null ==> fresh(r) && fresh(r.limbs) && r.Valid() && r.Number() == DigitsValue(WithoutPlus(text.value), 10)
  {
    hide Val, Weight;
    if text == None { return null; }
    var digits := WithoutPlus(text.value);
    if digits == "" { return null; }
    var acc := new Big(1);
    var i := 0;
    while i < |digits|
      invariant 0 <= i <= |digits|
      invariant fresh(acc) && fresh(acc.limbs) && acc.WellFormed() && acc.len == acc.limbs.Length
      invariant forall j :: 0 <= j < i ==> '0' <= digits[j] <= '9'
      invariant acc.Number() == DigitsValue(digits[..i], 10)
    {
      if digits[i] < '0' || digits[i] > '9' { return null; }
      var carry := MultiplyAddInPlace(acc.limbs, acc.len, 10, DigitOf(digits[i]));
      AppendCarry(acc, carry);
      assert digits[..i + 1][..i] == digits[..i];
      i := i + 1;
    }
    assert digits[..i] == digits;
    acc.Normalize();
    r := acc;
  }

  // ----- printing -----

  const CAPACITY := 1199   // digit characters that fit the 1200-byte buffer
  const CHUNK := 1_000_000_000

  /** t[..n] := t[..n] / CHUNK in place, from the top limb down; the 64-bit word never overflows. */
  method DivideByChunk(t: array<int>, n: nat) returns (rem: int)
    requires n <= t.Length && AreLimbs(t[..n])
    modifies t
    ensures AreLimbs(t[..n]) && 0 <= rem < CHUNK
    ensures old(Val(t[..n])) == Val(t[..n]) * CHUNK + rem
  {
    hide Val, Weight;
    rem := 0;
    var i := n;
    ghost var s := t[..n];
    assert s[n..] == [] && t[n..n] == [];
    EmptyVal();
    while i > 0
      invariant 0 <= i <= n && 0 <= rem < CHUNK && t[..i] == s[..i]
      invariant AreLimbs(t[i..n]) && Val(s[i..]) == Val(t[i..n]) * CHUNK + rem
    {
      i := i - 1;
      ghost var upper := t[i + 1..n];
      assert t[i] == s[i];
      var cur := rem * BASE + t[i];
      assert cur < BASE * BASE;
      t[i] := cur / CHUNK;
      rem := cur % CHUNK;
      assert t[i..n] == [cur / CHUNK] + upper && s[i..] == [s[i]] + s[i + 1..];
      ConsVal(cur / CHUNK, upper);
      ConsVal(s[i], s[i + 1..]);
    }
    assert s[0..] == s && t[0..n] == t[..n];
  }

  lemma {:induction false} EmptyVal()
    ensures Val([]) == 0
  {
  }

  lemma {:induction false} ConsVal(x: int, t: seq<int>)
    ensures Val([x] + t) == x + BASE * Val(t)
  {
    ValConcat([x], t);
    assert [x] == [] + [x];
    ValSnoc([], x);
    assert Weight(1) == BASE && Weight(0) == 1;
  }

  /** The digits written so far are the low digits of n; while there is room, m is what is left of n. */
  ghost predicate Written(n: int, digits: string, m: int) {
    && |digits| <= CAPACITY && DigitChars(digits) && Reading(digits) == n % Pow10(|digits|)
    && (|digits| < CAPACITY ==> m == n / Pow10(|digits|))
  }

  lemma {:induction false} OneDigit(n: int, digits: string, m: int, d: int)
    requires n >= 0 && Written(n, digits, m) && |digits| < CAPACITY && d == m % 10
    ensures 0 <= d < 10 && Written(n, digits + [DigitChar(d)], m / 10)
  {
    hide Pow10;
    DigitOfNumber(n, |digits|);
    ReadingSnoc(digits, DigitChar(d));
  }

  /** Up to nine digits of a chunk; m is the number left before the chunk was split off. */
  method EmitChunk(ghost n: int, ghost m: int, ghost left: int, chunk: int, digits: string) returns (more: string)
    requires n >= 0 && Written(n, digits, m) && 0 <= chunk < CHUNK && left >= 0
    requires m == left * CHUNK + chunk
    ensures Written(n, more, left) && |more| >= |digits| && (|digits| == 0 ==> |more| >= 1)
  {
    hide Pow10, Reading;
    more := digits;
    var rem, k := chunk, 0;
    ghost var now := m;
    NinePowers();
    while k < 9 && |more| + 1 < CAPACITY + 1
      invariant 0 <= k <= 9 && |digits| <= |more| <= CAPACITY && (k > 0 ==> |more| >= 1)
      invariant Written(n, more, now)
      invariant 0 <= rem < Pow10(9 - k) && now == left * Pow10(9 - k) + rem
    {
      Pow10Step(9 - k - 1);
      ShiftDigit(left, Pow10(9 - k - 1), rem);
      OneDigit(n, more, now, rem % 10);
      more := more + [DigitChar(rem % 10)];
      rem := rem / 10;
      now := now / 10;
      k := k + 1;
    }
    if k == 9 {
      assert Pow10(0) == 1 by { NinePowers(); }
      assert rem == 0 && now == left;
    }
  }

  lemma {:induction false} NinePowers()
    ensures Pow10(9) == CHUNK && Pow10(0) == 1
  {
    assert Pow10(3) == 1000;
    assert Pow10(6) == 1000000;
  }

  lemma {:induction false} ShiftDigit(left: int, p: int, rem: int)
    requires 0 <= rem < 10 * p
    ensures (left * (10 * p) + rem) % 10 == rem % 10 && (left * (10 * p) + rem) / 10 == left * p + rem / 10
    ensures 0 <= rem / 10 < p
  {
    var t := left * p;
    MulAssoc(left, p, 10);
    assert left * (10 * p) == 10 * t;
  }

  /** Leading zeros go, but one digit stays. */
  method Trim(digits: string) returns (short: string)
    requires digits != "" && DigitChars(digits)
    ensures short != "" && DigitChars(short) && Reading(short) == Reading(digits)
    ensures |short| > 1 ==> short[|short| - 1] != '0'
  {
    hide Pow10, Reading;
    short := digits;
    while |short| > 1 && short[|short| - 1] == '0'
      invariant short != "" && DigitChars(short) && Reading(short) == Reading(digits)
    {
      var pos := |short| - 1;
      ReadingSnoc(short[..pos], '0');
      assert short == short[..pos] + ['0'];
      short := short[..pos];
    }
  }

  /** The limbs without leading zeros. */
  method ShortLength(tmp: array<int>, n: nat) returns (m: nat)
    requires 1 <= n <= tmp.Length && AreLimbs(tmp[..n])
    ensures 1 <= m <= n && AreLimbs(tmp[..m]) && Normal(tmp[..m]) && Val(tmp[..m]) == Val(tmp[..n])
  {
    m := n;
    while m > 1 && tmp[m - 1] == 0
      invariant 1 <= m <= n && AreLimbs(tmp[..m]) && Val(tmp[..m]) == Val(tmp[..n])
    {
      assert tmp[..m - 1] == tmp[..m][..m - 1];
      m := m - 1;
    }
  }

  lemma {:induction false} LastChunk(s: seq<int>, before: int, rem: int, done: bool)
    requires |s| >= 1 && AreLimbs(s) && Normal(s) && before == Val(s) * CHUNK + rem && rem >= 0
    requires done <==> |s| == 1 && s[0] == 0
    ensures done ==> Val(s) == 0
    ensures !done ==> 0 < Val(s) < before
  {
    if |s| > 1 {
      NormalBound(s);
    } else {
      assert s == [s[0]] + [];
      ConsVal(s[0], []);
      EmptyVal();
    }
  }

  lemma {:induction false} NothingWritten(n: int)
    requires n >= 0
    ensures Written(n, "", n)
  {
    assert Pow10(0) == 1;
  }

  lemma {:induction false} AllWritten(n: int, digits: string, m: int)
    requires n >= 0 && Written(n, digits, m) && m == 0
    ensures DigitChars(digits) && Reading(digits) == n % Pow10(CAPACITY)
  {
    hide Pow10;
    if |digits| < CAPACITY {
      var p := Pow10(|digits|);
      assert n == (n / p) * p + n % p;
      Pow10Mono(|digits|, CAPACITY);
      ModUnique(n, Pow10(CAPACITY), 0, n);
    }
  }

  /** The number modulo 10^1199, in the usual notation; "0" for a null handle. */
  method ToDec(b: Big?) returns (text: string)
    requires b != null ==> b.Valid()
    ensures b == null ==> text == "0"
    ensures b != null ==> b.Number() >= 0 && b.Number() % Pow10(CAPACITY) >= 0 && text == Decimal(b.Number() % Pow10(CAPACITY))
  {
    hide Val, Weight, Pow10, Reading, Written;
    if b == null { return "0"; }
    ghost var whole := b.Number();
    ValBounds(b.limbs[..b.len]);
    var source, count := b.limbs, b.len;
    var tmp := new int[count](i requires 0 <= i < source.Length reads source => source[i]);
    assert tmp[..b.len] == b.limbs[..b.len];
    var n := b.len;
    var digits := "";
    NothingWritten(whole);
    var done := false;
    while !done
      invariant 1 <= n <= tmp.Length && AreLimbs(tmp[..n]) && fresh(tmp)
      invariant Written(whole, digits, Val(tmp[..n])) && (done ==> Val(tmp[..n]) == 0)
      invariant digits == "" ==> !done
      decreases !done, Val(tmp[..n])
    {
      ghost var before := Val(tmp[..n]);
      ValBounds(tmp[..n]);
      var rem := DivideByChunk(tmp, n);
      ValBounds(tmp[..n]);
      digits := EmitChunk(whole, before, Val(tmp[..n]), rem, digits);
      n := ShortLength(tmp, n);
      done := n == 1 && tmp[0] == 0;
      LastChunk(tmp[..n], before, rem, done);
    }
    AllWritten(whole, digits, Val(tmp[..n]));
    var short := Trim(digits);
    ReverseIsDecimal(short);
    text := Reverse(short);
  }

  /** Printing and reading back gives the number exactly when it has at most 1199 digits. */
  lemma {:induction false} DecimalRoundTrip(x: nat)
    ensures x % Pow10(CAPACITY) >= 0 && IsDecimal(Decimal(x % Pow10(CAPACITY)))
    ensures DigitsValue(WithoutPlus(Decimal(x % Pow10(CAPACITY))), 10) == x <==> x < Pow10(CAPACITY)
  {
    hide Pow10;
    var p := Pow10(CAPACITY);
    DecimalReads(x % p);
    if x < p { ModUnique(x, p, 0, x); }
  }
}
