/** Decimal notation of natural numbers, and the digit buffers that printers fill from the low end. */
module DecimalText {
  import opened Words
  import opened Numeric

  // ----- decimal notation -----

  /** The usual notation: no superfluous leading zero. */
  function Decimal(n: nat): (text: string)
    ensures text != ""
  {
    if n < 10 then [DigitChar(n)] else Decimal(n / 10) + [DigitChar(n % 10)]
  }

  function DigitChar(d: nat): (c: char)
    requires d < 10
    ensures '0' <= c <= '9' && DigitOf(c) == d
  {
    ('0' as int + d) as char
  }

  /** Reading a decimal notation gives the number back, and it is the only notation without extra zeros. */
  lemma {:induction false} DecimalReads(n: nat)
    ensures AllDigits(Decimal(n), 10) && DigitsValue(Decimal(n), 10) == n
    ensures forall i :: 0 <= i < |Decimal(n)| ==> '0' <= Decimal(n)[i] <= '9'
    ensures |Decimal(n)| > 1 ==> Decimal(n)[0] != '0'
  {
    if n < 10 {
      assert [DigitChar(n)][..0] == "";
    } else {
      DecimalReads(n / 10);
      var front := Decimal(n / 10);
      assert (front + [DigitChar(n % 10)])[..|front|] == front;
      if |front| == 1 {
        assert front == [DigitChar(n / 10)];
      }
    }
  }

  // ----- digits from the low end -----

  function Pow10(n: nat): (p: int)
    ensures p >= 1
  {
    if n == 0 then 1 else 10 * Pow10(n - 1)
  }

  lemma {:induction false} Pow10Step(n: nat)
    ensures Pow10(n + 1) == 10 * Pow10(n)
  {
  }

  lemma {:induction false} Pow10Mono(m: nat, n: nat)
    requires m <= n
    ensures Pow10(m) <= Pow10(n)
    decreases n - m
  {
    if m < n { Pow10Mono(m, n - 1); }
  }

  /** The value of digits written least significant first. */
  ghost function Reading(ds: string): int {
    if ds == "" then 0 else DigitOf(ds[0]) + 10 * Reading(ds[1..])
  }

  ghost predicate DigitChars(ds: string) { forall i :: 0 <= i < |ds| ==> '0' <= ds[i] <= '9' }

  lemma {:induction false} ReadingSnoc(ds: string, c: char)
    ensures Reading(ds + [c]) == Reading(ds) + DigitOf(c) * Pow10(|ds|)
  {
    if ds == "" {
      assert ds + [c] == [c] && [c][1..] == "";
    } else {
      ReadingSnoc(ds[1..], c);
      assert (ds + [c])[1..] == ds[1..] + [c];
      Pow10Step(|ds| - 1);
      MulAssoc(10, DigitOf(c), Pow10(|ds| - 1));
      MulAssoc(DigitOf(c), 10, Pow10(|ds| - 1));
    }
  }

  lemma {:induction false} ReadingBound(ds: string)
    requires DigitChars(ds)
    ensures 0 <= Reading(ds) < Pow10(|ds|)
  {
    if ds != "" { ReadingBound(ds[1..]); }
  }

  function Reverse(ds: string): string { if ds == "" then "" else Reverse(ds[1..]) + [ds[0]] }

  /** Digits without superfluous leading zeros, turned round, are the usual notation. */
  lemma {:induction false} ReverseIsDecimal(ds: string)
    requires ds != "" && DigitChars(ds) && (|ds| > 1 ==> ds[|ds| - 1] != '0')
    ensures Reading(ds) >= 0 && Reverse(ds) == Decimal(Reading(ds)) && (|ds| > 1 ==> Reading(ds) >= 1)
  {
    ReadingBound(ds);
    var rest := ds[1..];
    DigitChars1(ds[0]);
    if |ds| == 1 {
      assert rest == "" && Reverse(rest) == "";
    } else {
      ReverseIsDecimal(rest);
      if |rest| == 1 { assert rest == [rest[0]] && rest[1..] == ""; DigitChars1(rest[0]); }
      assert Reading(ds) / 10 == Reading(rest) && Reading(ds) % 10 == DigitOf(ds[0]);
    }
  }

  lemma {:induction false} DigitChars1(c: char)
    requires '0' <= c <= '9'
    ensures DigitOf(c) < 10 && DigitChar(DigitOf(c)) == c && (DigitOf(c) == 0 <==> c == '0')
  {
  }

  lemma {:induction false} DigitOfNumber(n: int, k: nat)
    requires n >= 0
    ensures n % Pow10(k + 1) == n % Pow10(k) + ((n / Pow10(k)) % 10) * Pow10(k)
    ensures n / Pow10(k + 1) == (n / Pow10(k)) / 10
  {
    hide Pow10;
    Pow10Step(k);
    var p := Pow10(k);
    var q, r := n / p, n % p;
    DivDiv(n, p, 10);
    assert n == q * p + r && q == (q / 10) * 10 + q % 10;
    MulAdd((q / 10) * 10, 0 - q % 10, p);
    MulAssoc(q / 10, 10, p);
    DigitBound(r, q % 10, p, 10);
    ModUnique(n, 10 * p, q / 10, (q % 10) * p + r);
  }
}
