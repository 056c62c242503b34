/** Arbitrary-precision unsigned integers (libs/bigint/bigint.c): little-endian limbs, updated in place.
    A null handle is a null reference; releasing a handle has no counterpart here. */
module BigInt {
  import opened Words
  import opened Limbs

  class Big {
    var limbs: array<int>
    var len: nat

    ghost predicate WellFormed()
      reads this, limbs
    {
      1 <= len <= limbs.Length && AreLimbs(limbs[..len])
    }

    /** No leading zero limb. */
    ghost predicate Valid()
      reads this, limbs
    {
      WellFormed() && Normal(limbs[..len])
    }

    ghost function Number(): int
      reads this, limbs
      requires len <= limbs.Length
    {
      Val(limbs[..len])
    }

    constructor (n: nat)
      requires n >= 1
      ensures fresh(limbs) && len == limbs.Length == n && WellFormed() && Number() == 0
      ensures forall i :: 0 <= i < n ==> limbs[i] == 0
    {
      limbs := new int[n](_ => 0);
      len := n;
      new;
      ZeroVal(limbs[..len]);
    }

    /** Drop leading zero limbs. */
    method Normalize()
      requires WellFormed()
      modifies this`len
      ensures Valid() && Number() == old(Number())
    {
      while len > 1 && limbs[len - 1] == 0
        invariant WellFormed() && Number() == old(Number())
      {
        ghost var s := limbs[..len];
        assert limbs[..len - 1] == s[..|s| - 1];
        len := len - 1;
      }
    }
  }

  // ----- sequences of limbs -----

  ghost predicate Normal(s: seq<int>) {
    |s| > 1 ==> s[|s| - 1] != 0
  }

  lemma {:induction false} ZeroVal(s: seq<int>)
    requires forall i :: 0 <= i < |s| ==> s[i] == 0
    ensures Val(s) == 0
  {
    if s != [] { ZeroVal(s[..|s| - 1]); }
  }

  /** The first n limbs, missing ones counting as zero. */
  ghost function Low(s: seq<int>, n: nat): int { if n < |s| then Val(s[..n]) else Val(s) }

  function LimbAt(s: seq<int>, i: nat): int { if i < |s| then s[i] else 0 }

  lemma {:induction false} LowStep(s: seq<int>, n: nat)
    ensures Low(s, n + 1) == Low(s, n) + LimbAt(s, n) * Weight(n)
  {
    if n < |s| {
      ValPrefix(s, n);
      if n + 1 == |s| { assert s[..n + 1] == s; }
    }
  }

  /** A normalised number of several limbs is at least the weight of its top limb. */
  lemma {:induction false} NormalBound(s: seq<int>)
    requires AreLimbs(s) && Normal(s) && |s| > 1
    ensures Val(s) >= Weight(|s| - 1)
  {
    ValBounds(s[..|s| - 1]);
    MulLe(1, s[|s| - 1], Weight(|s| - 1));
  }

  lemma {:induction false} LongerIsLarger(s: seq<int>, t: seq<int>)
    requires AreLimbs(s) && AreLimbs(t) && Normal(t) && 1 <= |s| < |t|
    ensures Val(s) < Val(t)
  {
    ValBounds(s);
    NormalBound(t);
    WeightMono(|s|, |t| - 1);
  }

  /** The highest differing limb decides. */
  lemma {:induction false} TopDecides(s: seq<int>, t: seq<int>, i: nat)
    requires AreLimbs(s) && AreLimbs(t) && |s| == |t| && i < |s| && s[i] < t[i] && s[i + 1..] == t[i + 1..]
    ensures Val(s) < Val(t)
  {
    assert s == s[..i + 1] + s[i + 1..] && t == t[..i + 1] + t[i + 1..];
    ValConcat(s[..i + 1], s[i + 1..]);
    ValConcat(t[..i + 1], t[i + 1..]);
    ValPrefix(s, i);
    ValPrefix(t, i);
    ValBounds(s[..i]);
    ValBounds(t[..i]);
    MulLe(s[i] + 1, t[i], Weight(i));
    MulAdd(s[i], 1, Weight(i));
  }

  // ----- comparison -----

  /** Three-way comparison; a null handle comes before every number. */
  method Cmp(a: Big?, b: Big?) returns (r: int)
    requires (a != null ==> a.Valid()) && (b != null ==> b.Valid())
    ensures a != null && b != null ==> (r < 0 <==> a.Number() < b.Number()) && (r > 0 <==> a.Number() > b.Number())
    ensures a == null || b == null ==> r == (if a == null && b == null then 0 else if a == null then -1 else 1)
    ensures -1 <= r <= 1
  {
    hide Val;
    if a == null && b == null { return 0; }
    if a == null { return -1; }
    if b == null { return 1; }
    ghost var s, t := a.limbs[..a.len], b.limbs[..b.len];
    if a.len != b.len {
      if a.len < b.len {
        LongerIsLarger(s, t);
        return -1;
      }
      LongerIsLarger(t, s);
      return 1;
    }
    var i := a.len;
    while i > 0
      invariant 0 <= i <= a.len
      invariant s[i..] == t[i..]
    {
      i := i - 1;
      if a.limbs[i] != b.limbs[i] {
        if a.limbs[i] < b.limbs[i] {
          TopDecides(s, t, i);
          return -1;
        }
        TopDecides(t, s, i);
        return 1;
      }
      assert s[i..] == [s[i]] + s[i + 1..];
      assert t[i..] == [t[i]] + t[i + 1..];
    }
    assert s == s[0..] && t == t[0..];
    r := 0;
  }

  method IsZero(a: Big?) returns (zero: bool)
    requires a != null ==> a.Valid()
    ensures zero <==> a == null || a.Number() == 0
  {
    if a == null { return true; }
    ghost var s := a.limbs[..a.len];
    if a.len > 1 {
      NormalBound(s);
    } else {
      assert s[..0] == [] && Val(s) == s[0];
    }
    zero := a.len == 1 && a.limbs[0] == 0;
  }

  // ----- addition and subtraction -----

  /** One limb of a sum: the part that stays and the carry that moves up. */
  lemma {:induction false} CarryUp(cur: int, w: int)
    ensures (cur % BASE) * w + (cur / BASE) * (BASE * w) == cur * w
  {
    MulAssoc(cur / BASE, BASE, w);
    MulAdd(cur % BASE, 0 - (cur / BASE) * BASE, w);
  }

  lemma {:induction false} SumStep(v: int, carry: int, x: int, y: int, w: int, low: int, cur: int)
    requires v + carry * w == low && cur == carry + x + y
    ensures v + (cur % BASE) * w + (cur / BASE) * (BASE * w) == low + x * w + y * w
  {
    CarryUp(cur, w);
    MulAdd(carry + x, 0 - y, w);
    MulAdd(carry, 0 - x, w);
  }

  method Add(a: Big?, b: Big?) returns (r: Big?)
    requires (a != null ==> a.Valid()) && (b != null ==> b.Valid())
    ensures r == null <==> a == null || b == null
    ensures r != null ==> fresh(r) && fresh(r.limbs) && r.Valid() && r.Number() == a.Number() + b.Number()
  {
    hide Val, Weight;
    if a == null || b == null { return null; }
    var n := if a.len > b.len then a.len else b.len;
    ghost var s, t := a.limbs[..a.len], b.limbs[..b.len];
    var sum := new Big(n + 1);
    var carry, i := 0, 0;
    Nothing(s, t);
    while i < n
      invariant 0 <= i <= n && 0 <= carry <= 1
      invariant sum.len == sum.limbs.Length == n + 1 && fresh(sum) && fresh(sum.limbs)
      invariant s == a.limbs[..a.len] && t == b.limbs[..b.len]
      invariant AreLimbs(sum.limbs[..i])
      invariant Val(sum.limbs[..i]) + carry * Weight(i) == Low(s, i) + Low(t, i)
    {
      var cur := carry + (if i < a.len then a.limbs[i] else 0) + (if i < b.len then b.limbs[i] else 0);
      ghost var before := sum.limbs[..i];
      SumStep(Val(before), carry, LimbAt(s, i), LimbAt(t, i), Weight(i), Low(s, i) + Low(t, i), cur);
      LowStep(s, i);
      LowStep(t, i);
      sum.limbs[i] := cur % BASE;
      carry := cur / BASE;
      assert sum.limbs[..i + 1] == before + [cur % BASE];
      ValSnoc(before, cur % BASE);
      WeightStep(i);
      i := i + 1;
    }
    ghost var before := sum.limbs[..n];
    sum.limbs[n] := carry;
    assert sum.limbs[..sum.len] == before + [carry];
    ValSnoc(before, carry);
    sum.Normalize();
    r := sum;
  }

  lemma {:induction false} WeightStep(i: nat)
    ensures Weight(i + 1) == BASE * Weight(i)
  {
  }

  lemma {:induction false} Nothing(s: seq<int>, t: seq<int>)
    ensures Low(s, 0) == 0 && Low(t, 0) == 0 && Val([]) == 0
  {
    assert s[..0] == [] && t[..0] == [];
  }

  method FromU64(value: int) returns (r: Big)
    requires 0 <= value < BASE * BASE
    ensures fresh(r) && fresh(r.limbs) && r.Valid() && r.Number() == value
  {
    r := new Big(2);
    r.limbs[0], r.limbs[1] := value % BASE, value / BASE;
    assert r.limbs[..r.len] == [value % BASE, value / BASE];
    TwoLimbs(value % BASE, value / BASE);
    r.Normalize();
  }

  lemma {:induction false} TwoLimbs(x: int, y: int)
    ensures Val([x, y]) == x + y * BASE
  {
    assert [x, y] == [] + [x] + [y];
    ValSnoc([], x);
    ValSnoc([] + [x], y);
    assert Weight(1) == BASE && Weight(0) == 1;
  }

  /** One limb of a difference; the borrow shows in the upper half of the 64-bit word. */
  lemma {:induction false} DiffStep(v: int, borrow: int, x: int, y: int, w: int, low: int, cur: int)
    requires v == low + borrow * w && cur == x - borrow - y
    ensures v + (cur % BASE) * w == low + x * w - y * w + (0 - cur / BASE) * (BASE * w)
  {
    CarryUp(cur, w);
    MulAdd(x - borrow, y, w);
    MulAdd(x, borrow, w);
    MulAdd(0, cur / BASE, BASE * w);
  }

  /** Subtraction saturating at zero. */
  method Sub(a: Big?, b: Big?) returns (r: Big?)
    requires (a != null ==> a.Valid()) && (b != null ==> b.Valid())
    ensures r == null <==> a == null || b == null
    ensures r != null ==> fresh(r) && fresh(r.limbs) && r.Valid()
    ensures r != null ==> r.Number() == if a.Number() <= b.Number() then 0 else a.Number() - b.Number()
  {
    hide Val, Weight;
    if a == null || b == null { return null; }
    ghost var s, t := a.limbs[..a.len], b.limbs[..b.len];
    var order := Cmp(a, b);
    if order <= 0 {
      r := FromU64(0);
      return;
    }
    if b.len > a.len { LongerIsLarger(s, t); }
    var diff := new Big(a.len);
    var borrow, i := 0, 0;
    Nothing(s, t);
    while i < a.len
      invariant 0 <= i <= a.len && 0 <= borrow <= 1
      invariant diff.len == diff.limbs.Length == a.len && fresh(diff) && fresh(diff.limbs)
      invariant s == a.limbs[..a.len] && t == b.limbs[..b.len]
      invariant AreLimbs(diff.limbs[..i])
      invariant Val(diff.limbs[..i]) == Low(s, i) - Low(t, i) + borrow * Weight(i)
    {
      var cur := a.limbs[i] - borrow - (if i < b.len then b.limbs[i] else 0);
      var word := if cur < 0 then cur + BASE * BASE else cur;
      ghost var before := diff.limbs[..i];
      DiffStep(Val(before), borrow, LimbAt(s, i), LimbAt(t, i), Weight(i), Low(s, i) - Low(t, i), cur);
      BorrowWord(cur);
      LowStep(s, i);
      LowStep(t, i);
      diff.limbs[i] := word % BASE;
      borrow := if word / BASE != 0 then 1 else 0;
      assert diff.limbs[..i + 1] == before + [word % BASE];
      ValSnoc(before, word % BASE);
      WeightStep(i);
      i := i + 1;
    }
    assert diff.limbs[..diff.len] == diff.limbs[..i];
    ValBounds(diff.limbs[..diff.len]);
    NoBorrow(Val(diff.limbs[..diff.len]), Val(s) - Val(t), borrow, Weight(a.len));
    diff.Normalize();
    r := diff;
  }

  lemma {:induction false} BorrowWord(cur: int)
    requires -BASE <= cur < BASE
    ensures var word := if cur < 0 then cur + BASE * BASE else cur;
      word % BASE == cur % BASE && (word / BASE != 0 <==> cur < 0) && cur / BASE == (if cur < 0 then -1 else 0)
  {
  }

  lemma {:induction false} NoBorrow(v: int, d: int, borrow: int, w: int)
    requires v == d + borrow * w && 0 <= v < w && d > 0 && 0 <= borrow <= 1
    ensures v == d
  {
    assert borrow * w == if borrow == 1 then w else 0;
  }

  // ----- multiplication -----

  /** Changing one limb changes the number by the difference times the limb's weight. */
  lemma {:induction false} ValUpdate(s: seq<int>, i: nat, x: int)
    requires i < |s|
    ensures Val(s[i := x]) == Val(s) + (x - s[i]) * Weight(i)
  {
    var last := |s| - 1;
    MulAdd(x, s[i], Weight(i));
    if i == last {
      assert s[i := x][..last] == s[..last];
    } else {
      assert s[i := x][..last] == s[..last][i := x];
      ValUpdate(s[..last], i, x);
    }
  }

  /** The accumulator of the inner loop fits 64 bits, so its carry fits a limb. */
  lemma {:induction false} Accumulator(r: int, x: int, y: int, carry: int)
    requires 0 <= r < BASE && 0 <= x < BASE && 0 <= y < BASE && 0 <= carry < BASE
    ensures 0 <= r + x * y + carry < BASE * BASE && 0 <= (r + x * y + carry) / BASE < BASE
  {
    MulLe(0, x, y);
    MulLe(x, BASE - 1, y);
    MulLe(y, BASE - 1, BASE - 1);
  }

  /** The product so far: whole rows, part of the current row, and a carry waiting at position k. */
  ghost predicate Accumulated(r: seq<int>, k: nat, carry: int, total: int) {
    AreLimbs(r) && 0 <= carry < BASE && Val(r) + carry * Weight(k) == total
  }

  lemma {:induction false} RowStep(r: seq<int>, k: nat, carry: int, total: int, x: int, y: int)
    requires k < |r| && Accumulated(r, k, carry, total) && 0 <= x < BASE && 0 <= y < BASE
    ensures var cur := r[k] + x * y + carry;
      0 <= cur < BASE * BASE && Accumulated(r[k := cur % BASE], k + 1, cur / BASE, total + x * y * Weight(k))
  {
    hide Val, Weight;
    var cur := r[k] + x * y + carry;
    Accumulator(r[k], x, y, carry);
    ValUpdate(r, k, cur % BASE);
    WeightStep(k);
    RowSum(Val(r), r[k], carry, x * y, Weight(k), cur);
  }

  lemma {:induction false} RowSum(v: int, limb: int, carry: int, p: int, w: int, cur: int)
    requires cur == limb + p + carry
    ensures v + (cur % BASE - limb) * w + (cur / BASE) * (BASE * w) == v + carry * w + p * w
  {
    CarryUp(cur, w);
    MulAdd(cur % BASE, limb, w);
    MulAdd(limb + p, 0 - carry, w);
    MulAdd(limb, 0 - p, w);
  }

  /** While a carry is left, its position is inside the limbs the product needs. */
  lemma {:induction false} CarryInside(r: seq<int>, k: nat, carry: int, total: int, bound: nat)
    requires Accumulated(r, k, carry, total) && carry > 0 && total < Weight(bound)
    ensures k < bound
  {
    ValBounds(r);
    MulLe(1, carry, Weight(k));
    if bound <= k { WeightMono(bound, k); }
  }

  /** One row: r += x * b, shifted by i limbs. */
  method AddRow(r: array<int>, i: nat, x: int, b: array<int>, n: nat)
    requires n <= b.Length && AreLimbs(b[..n]) && 0 <= x < BASE && r != b
    requires AreLimbs(r[..]) && i + n < r.Length
    requires Val(r[..]) + x * Val(b[..n]) * Weight(i) < Weight(i + n + 1)
    modifies r
    ensures AreLimbs(r[..]) && Val(r[..]) == old(Val(r[..])) + x * Val(b[..n]) * Weight(i)
  {
    hide Val, Weight;
    ghost var start := Val(r[..]);
    var carry, j := 0, 0;
    RowStart(b[..n], x, Weight(i), start);
    while j < n
      invariant 0 <= j <= n && b[..n] == old(b[..n])
      invariant Accumulated(r[..], i + j, carry, start + x * Val(b[..j]) * Weight(i))
    {
      var cur := r[i + j] + x * b[j] + carry;
      RowStep(r[..], i + j, carry, start + x * Val(b[..j]) * Weight(i), x, b[j]);
      RowGrows(b[..n], j, x, i, start);
      assert b[..n][..j] == b[..j] && b[..n][..j + 1] == b[..j + 1];
      ghost var before := r[..];
      r[i + j] := cur % BASE;
      assert r[..] == before[i + j := cur % BASE];
      carry := cur / BASE;
      j := j + 1;
    }
    ghost var total := start + x * Val(b[..n]) * Weight(i);
    var k := i + n;
    while carry != 0
      invariant i + n <= k <= i + n + 1 && (k == i + n + 1 ==> carry == 0)
      invariant Accumulated(r[..], k, carry, total)
      decreases i + n + 1 - k
    {
      CarryInside(r[..], k, carry, total, i + n + 1);
      RowStep(r[..], k, carry, total, 0, 0);
      var cur := r[k] + carry;
      ghost var before := r[..];
      r[k] := cur % BASE;
      assert r[..] == before[k := cur % BASE];
      carry := cur / BASE;
      k := k + 1;
      if carry != 0 { CarryInside(r[..], k, carry, total, i + n + 1); }
    }
  }

  lemma {:induction false} RowStart(b: seq<int>, x: int, w: int, start: int)
    ensures start + x * Val(b[..0]) * w == start
  {
    assert b[..0] == [];
  }

  lemma {:induction false} RowGrows(b: seq<int>, j: nat, x: int, i: nat, start: int)
    requires j < |b|
    ensures start + x * Val(b[..j + 1]) * Weight(i) == start + x * Val(b[..j]) * Weight(i) + x * b[j] * Weight(i + j)
  {
    hide Val, Weight;
    ValPrefix(b, j);
    WeightAdd(i, j);
    Spread(x, Val(b[..j]), b[j], Weight(j), Weight(i));
  }

  lemma {:induction false} Spread(x: int, v: int, y: int, wj: int, wi: int)
    ensures x * (v + y * wj) * wi == x * v * wi + x * y * (wi * wj)
  {
    calc {
      x * (v + y * wj) * wi;
      (x * v + x * (y * wj)) * wi;
      { MulAdd(x * v, 0 - x * (y * wj), wi); }
      x * v * wi + x * (y * wj) * wi;
      { MulAssoc(x, y, wj); MulAssoc(x * y, wj, wi); }
      x * v * wi + (x * y) * (wj * wi);
    }
  }

  lemma {:induction false} RowFits(s: seq<int>, t: seq<int>, i: nat)
    requires AreLimbs(s) && AreLimbs(t) && i < |s|
    ensures Val(s[..i]) * Val(t) + s[i] * Val(t) * Weight(i) == Val(s[..i + 1]) * Val(t) < Weight(i + |t| + 1)
  {
    hide Val, Weight;
    ValPrefix(s, i);
    ValBounds(s[..i + 1]);
    ValBounds(t);
    WeightAdd(i + 1, |t|);
    MulAdd(Val(s[..i]), 0 - s[i] * Weight(i), Val(t));
    Swap(s[i], Weight(i), Val(t));
    BelowProduct(Val(s[..i + 1]), Val(t), Weight(i + 1), Weight(|t|));
  }

  lemma {:induction false} Swap(x: int, y: int, z: int)
    ensures x * y * z == x * z * y
  {
    MulAssoc(x, y, z);
    MulAssoc(x, z, y);
  }

  lemma {:induction false} BelowProduct(x: int, y: int, a: int, b: int)
    requires 0 <= x < a && 0 <= y < b
    ensures x * y < a * b
  {
    MulLe(x, a - 1, y);
    MulLe(y, b, a);
    MulAdd(a, 1, y);
  }

  /** The exact product. */
  method Mul(a: Big?, b: Big?) returns (r: Big?)
    requires (a != null ==> a.Valid()) && (b != null ==> b.Valid())
    ensures r == null <==> a == null || b == null
    ensures r != null ==> fresh(r) && fresh(r.limbs) && r.Valid() && r.Number() == a.Number() * b.Number()
  {
    hide Val, Weight;
    if a == null || b == null { return null; }
    ghost var s, t := a.limbs[..a.len], b.limbs[..b.len];
    var product := new Big(a.len + b.len + 1);
    assert product.limbs[..] == product.limbs[..product.len];
    var i := 0;
    NoRows(s, Val(t));
    while i < a.len
      invariant 0 <= i <= a.len
      invariant product.len == product.limbs.Length == a.len + b.len + 1 && fresh(product) && fresh(product.limbs)
      invariant s == a.limbs[..a.len] && t == b.limbs[..b.len]
      invariant AreLimbs(product.limbs[..]) && Val(product.limbs[..]) == Val(s[..i]) * Val(t)
    {
      RowFits(s, t, i);
      AddRow(product.limbs, i, a.limbs[i], b.limbs, b.len);
      i := i + 1;
    }
    assert s[..a.len] == s && product.limbs[..] == product.limbs[..product.len];
    product.Normalize();
    r := product;
  }

  lemma {:induction false} NoRows(s: seq<int>, v: int)
    ensures Val(s[..0]) * v == 0
  {
    assert s[..0] == [];
  }

  // ----- shifting, bits -----

  lemma {:induction false} DoubleStep(v: int, carry: int, x: int, w: int, low: int)
    requires v + carry * w == 2 * low && (carry == 0 || carry == 1) && 0 <= x < BASE
    ensures var limb := (2 * x) % BASE + carry;
      0 <= limb < BASE && 0 <= x / 0x8000_0000 <= 1
      && v + limb * w + (x / 0x8000_0000) * (BASE * w) == 2 * (low + x * w)
  {
    CarryUp(2 * x, w);
    MulAdd((2 * x) % BASE, 0 - carry, w);
    MulAssoc(2, x, w);
  }

  /** A fresh copy, doubled. */
  method Shl1(a: Big) returns (r: Big)
    requires a.Valid()
    ensures fresh(r) && fresh(r.limbs) && r.Valid() && r.Number() == 2 * a.Number()
  {
    hide Val, Weight;
    ghost var s := a.limbs[..a.len];
    r := new Big(a.len + 1);
    var carry, i := 0, 0;
    Nothing(s, s);
    while i < a.len
      invariant 0 <= i <= a.len && 0 <= carry <= 1
      invariant r.len == r.limbs.Length == a.len + 1 && fresh(r) && fresh(r.limbs)
      invariant s == a.limbs[..a.len]
      invariant AreLimbs(r.limbs[..i])
      invariant Val(r.limbs[..i]) + carry * Weight(i) == 2 * Low(s, i)
    {
      var v := a.limbs[i];
      ghost var before := r.limbs[..i];
      DoubleStep(Val(before), carry, v, Weight(i), Low(s, i));
      LowStep(s, i);
      WeightStep(i);
      var limb := (2 * v) % BASE + carry;
      r.limbs[i] := limb;
      carry := v / 0x8000_0000;
      assert r.limbs[..i + 1] == before + [limb];
      ValSnoc(before, limb);
      i := i + 1;
    }
    ghost var before := r.limbs[..i];
    r.limbs[a.len] := carry;
    assert r.limbs[..r.len] == before + [carry];
    ValSnoc(before, carry);
    r.Normalize();
  }

  /** Remainder by a machine word, from the top limb down. */
  method ModSmall(a: Big?, m: int) returns (rem: int)
    requires (a != null ==> a.Valid()) && 0 <= m < BASE * BASE
    ensures rem == if a == null || m == 0 then 0 else a.Number() % m
  {
    hide Val, Weight;
    if a == null || m == 0 { return 0; }
    ghost var s := a.limbs[..a.len];
    rem := 0;
    var i := a.len;
    assert s[i..] == [];
    NoTop(m);
    while i > 0
      invariant 0 <= i <= a.len && 0 <= rem < m && s == a.limbs[..a.len]
      invariant rem == Val(s[i..]) % m
    {
      i := i - 1;
      assert s[i..] == [s[i]] + s[i + 1..];
      TopStep(s[i], s[i + 1..], m);
      rem := (rem * BASE + a.limbs[i]) % m;
    }
    assert s[0..] == s;
  }

  lemma {:induction false} NoTop(m: int)
    requires m > 0
    ensures Val([]) % m == 0
  {
    ModUnique(0, m, 0, 0);
  }

  lemma {:induction false} TopStep(x: int, t: seq<int>, m: int)
    requires m > 0
    ensures ((Val(t) % m) * BASE + x) % m == Val([x] + t) % m
  {
    ValConcat([x], t);
    assert [x] == [] + [x];
    ValSnoc([], x);
    assert Weight(1) == BASE && Weight(0) == 1;
    ModIdempotent(Val(t), m);
    CongruentMul(Val(t) % m, BASE, Val(t), BASE, m);
    CongruentAdd((Val(t) % m) * BASE, x, Val(t) * BASE, x, m);
  }

  // ----- single bits -----

  ghost function BitOf(n: int, pos: nat): int { (n / Pow2(pos)) % 2 }

  lemma {:induction false} WeightIsPow2(i: nat)
    ensures Weight(i) == Pow2(32 * i)
  {
    if i > 0 {
      WeightIsPow2(i - 1);
      Pow2Values();
      Pow2Add(32, 32 * (i - 1));
    }
  }

  /** The limbs below, at and above a position. */
  lemma {:induction false} SplitAt(s: seq<int>, i: nat)
    requires AreLimbs(s) && i < |s|
    ensures Val(s) == Val(s[..i]) + (s[i] + BASE * Val(s[i + 1..])) * Weight(i) && 0 <= Val(s[..i]) < Weight(i)
    ensures Val(s) / Weight(i) == s[i] + BASE * Val(s[i + 1..])
  {
    hide Val, Weight;
    var low, high := s[..i + 1], s[i + 1..];
    assert s == low + high;
    ValConcat(low, high);
    ValPrefix(s, i);
    WeightStep(i);
    ValBounds(s[..i]);
    MulAdd(s[i], 0 - BASE * Val(high), Weight(i));
    Swap(BASE, Weight(i), Val(high));
    ModUnique(Val(s), Weight(i), s[i] + BASE * Val(high), Val(s[..i]));
  }

  /** A bit of the number is a bit of one limb. */
  lemma {:induction false} BitOfLimb(s: seq<int>, i: nat, p: nat)
    requires AreLimbs(s) && i < |s| && p < 32
    ensures BitOf(Val(s), 32 * i + p) == (s[i] / Pow2(p)) % 2
  {
    hide Val, Weight, Pow2;
    SplitAt(s, i);
    WeightIsPow2(i);
    Pow2Add(32 * i, p);
    DivDiv(Val(s), Weight(i), Pow2(p));
    Pow2Values();
    Pow2Add(p, 32 - p);
    Pow2Step(32 - p);
    HighLimbs(s[i], Val(s[i + 1..]), Pow2(p), Pow2(32 - p - 1));
  }

  lemma {:induction false} HighLimbs(x: int, h: int, q: int, k: int)
    requires q > 0 && BASE == q * (2 * k)
    ensures ((x + BASE * h) / q) % 2 == (x / q) % 2
  {
    var t := x / q;
    MulAssoc(q, 2 * k, h);
    MulAdd(t, 0 - 2 * k * h, q);
    ModUnique(x + BASE * h, q, t + 2 * k * h, x % q);
    MulAssoc(2, k, h);
    Differ(t + 2 * k * h, t, 2, k * h);
  }

  lemma {:induction false} BitBeyond(s: seq<int>, pos: nat)
    requires AreLimbs(s) && pos >= 32 * |s|
    ensures BitOf(Val(s), pos) == 0
  {
    hide Val, Weight, Pow2;
    ValBounds(s);
    WeightIsPow2(|s|);
    Pow2Mono(32 * |s|, pos);
    ModUnique(Val(s), Pow2(pos), 0, Val(s));
  }

  /** The number with one bit set. */
  ghost function WithBit(n: int, pos: nat): int { if BitOf(n, pos) == 0 then n + Pow2(pos) else n }

  /** Make room up to and including limb idx. */
  method Grow(a: Big, idx: nat)
    requires a.WellFormed() && idx >= a.len
    modifies a
    ensures a.WellFormed() && a.len == a.limbs.Length == idx + 1 && fresh(a.limbs) && a.Number() == old(a.Number())
    ensures a.limbs[..a.len] == old(a.limbs[..a.len]) + seq(idx + 1 - old(a.len), _ => 0)
  {
    hide Val, Weight;
    var grown := new int[idx + 1](_ => 0);
    var i := 0;
    while i < a.len
      invariant unchanged(a) && a.WellFormed()
      invariant 0 <= i <= a.len && grown.Length == idx + 1 && grown[..i] == a.limbs[..i]
      invariant forall j :: i <= j < grown.Length ==> grown[j] == 0
    {
      grown[i] := a.limbs[i];
      i := i + 1;
    }
    ghost var s, zeros := a.limbs[..a.len], seq(idx + 1 - a.len, _ => 0);
    assert grown[..idx + 1] == s + zeros;
    ValConcat(s, zeros);
    ZeroVal(zeros);
    a.limbs := grown;
    a.len := idx + 1;
  }

  method SetBit(a: Big, pos: nat)
    requires a.Valid()
    modifies a, a.limbs
    ensures a.Valid() && a.Number() == WithBit(old(a.Number()), pos)
    ensures a.limbs == old(a.limbs) || fresh(a.limbs)
  {
    hide Val, Weight, Pow2;
    var idx := pos / 32;
    if idx >= a.len {
      BitBeyond(a.limbs[..a.len], pos);
      Grow(a, idx);
    }
    var mask := Pow2(pos % 32);
    BitOfLimb(a.limbs[..a.len], idx, pos % 32);
    Pow2Values();
    Pow2Mono(pos % 32, 31);
    if a.limbs[idx] / mask % 2 == 0 {
      ghost var s := a.limbs[..a.len];
      RoomForBit(s[idx], pos % 32);
      ValUpdate(s, idx, s[idx] + mask);
      WeightIsPow2(idx);
      Pow2Add(pos % 32, 32 * idx);
      a.limbs[idx] := a.limbs[idx] + mask;
      assert a.limbs[..a.len] == s[idx := s[idx] + mask];
    } else {
      DivNonNegative(a.limbs[idx], mask);
      SetLimbNonZero(a.limbs[idx], mask);
    }
  }

  lemma {:induction false} SetLimbNonZero(x: int, mask: int)
    requires mask > 0 && (x / mask) % 2 != 0
    ensures x != 0
  {
    if x == 0 { ModUnique(0, mask, 0, 0); }
  }

  /** Setting a clear bit of a limb does not overflow it. */
  lemma {:induction false} RoomForBit(x: int, p: nat)
    requires 0 <= x < BASE && p < 32 && (x / Pow2(p)) % 2 == 0
    ensures x + Pow2(p) < BASE
  {
    hide Pow2;
    Pow2Values();
    Pow2Add(p, 32 - p);
    Pow2Step(32 - p);
    EvenQuotient(x, Pow2(p), Pow2(32 - p - 1));
  }

  lemma {:induction false} EvenQuotient(x: int, q: int, k: int)
    requires q > 0 && 0 <= x < q * (2 * k) && (x / q) % 2 == 0
    ensures x + q < q * (2 * k)
  {
    var t := x / q;
    assert x == t * q + x % q;
    if t >= 2 * k { MulLe(2 * k, t, q); }
    MulLe(t + 2, 2 * k, q);
    MulAdd(t, 0 - 2, q);
  }

  // ----- division -----

  /** r shifted left by one with the next bit of the dividend behind it. */
  method BringDown(r: Big, bit: int) returns (next: Big)
    requires r.Valid() && (bit == 0 || bit == 1)
    ensures fresh(next) && fresh(next.limbs) && next.Valid() && next.Number() == 2 * r.Number() + bit
  {
    hide Val, Weight;
    next := Shl1(r);
    if bit == 1 {
      ghost var s := next.limbs[..next.len];
      LowLimbEven(s, r.Number());
      ValUpdate(s, 0, s[0] + 1);
      WeightZero();
      next.limbs[0] := next.limbs[0] + (1 - next.limbs[0] % 2);
      assert next.limbs[..next.len] == s[0 := s[0] + 1];
    }
  }

  lemma {:induction false} WeightZero()
    ensures Weight(0) == 1
  {
  }

  lemma {:induction false} LowLimbEven(s: seq<int>, half: int)
    requires AreLimbs(s) && |s| >= 1 && Val(s) == 2 * half
    ensures s[0] % 2 == 0 && s[0] + 1 < BASE
  {
    SplitAt(s, 0);
    assert s[..0] == [];
    WeightZero();
    assert s[0] == 2 * (half - 0x8000_0000 * Val(s[1..]));
  }

  /** Before position p: the bits of a from p up, divided by b. */
  ghost predicate Divided(a: int, b: int, p: nat, quot: int, q: int, r: int) {
    0 <= r < b && quot >= 0 && a / Pow2(p) == quot * b + r && q == quot * Pow2(p)
  }

  lemma {:induction false} DivideBit(a: int, b: int, p: nat, quot: int, q: int, r: int)
    requires a >= 0 && b > 0 && Divided(a, b, p + 1, quot, q, r)
    ensures var r' := 2 * r + BitOf(a, p);
      if r' < b then Divided(a, b, p, 2 * quot, q, r')
      else BitOf(q, p) == 0 && Divided(a, b, p, 2 * quot + 1, WithBit(q, p), r' - b)
  {
    hide Pow2;
    Pow2Step(p + 1);
    var P := Pow2(p);
    var t := a / P;
    DivDiv(a, P, 2);
    assert P * 2 == Pow2(p + 1);
    assert t == 2 * (t / 2) + BitOf(a, p);
    MulAssoc(2, quot, b);
    MulAdd(2 * quot, 0 - 1, b);
    assert 2 * (quot * P) == (2 * quot) * P == quot * (2 * P) by { MulAssoc(2, quot, P); MulAssoc(quot, 2, P); }
    MulAdd(2 * quot, 0 - 1, P);
    ModUnique(q, P, 2 * quot, 0);
  }

  /** One bit of long division. */
  method DivideStep(a: Big, b: Big, q: Big, r: Big, i: nat, bit: nat, ghost quot: int) returns (rest: Big, ghost quot': int)
    requires a.Valid() && b.Valid() && q.Valid() && r.Valid() && i < a.len && bit < 32 && b.Number() > 0
    requires q != a && q != b && q != r && {q.limbs} !! {a.limbs, b.limbs, r.limbs}
    requires Divided(a.Number(), b.Number(), 32 * i + bit + 1, quot, q.Number(), r.Number())
    modifies q, q.limbs
    ensures fresh(rest) && fresh(rest.limbs) && rest.Valid() && q.Valid() && (q.limbs == old(q.limbs) || fresh(q.limbs))
    ensures rest != q && rest.limbs != q.limbs
    ensures Divided(a.Number(), b.Number(), 32 * i + bit, quot', q.Number(), rest.Number())
  {
    hide Val, Weight, Pow2, Divided, WithBit;
    ghost var A, B, p := a.Number(), b.Number(), 32 * i + bit;
    ValBounds(a.limbs[..a.len]);
    DivideBit(A, B, p, quot, q.Number(), r.Number());
    BitOfLimb(a.limbs[..a.len], i, bit);
    rest := BringDown(r, a.limbs[i] / Pow2(bit) % 2);
    quot' := 2 * quot;
    var order := Cmp(rest, b);
    if order >= 0 {
      rest := TakeAway(rest, b);
      SetBit(q, 32 * i + bit);
      quot' := 2 * quot + 1;
    }
  }

  /** next = r - b for r >= b. */
  method TakeAway(r: Big, b: Big) returns (next: Big)
    requires r.Valid() && b.Valid() && b.Number() <= r.Number()
    ensures fresh(next) && fresh(next.limbs) && next.Valid() && next.Number() == r.Number() - b.Number()
  {
    next := Sub(r, b);
  }

  lemma {:induction false} NothingDivided(s: seq<int>, b: int)
    requires AreLimbs(s) && b > 0
    ensures Divided(Val(s), b, 32 * |s|, 0, 0, 0)
  {
    hide Val, Weight, Pow2;
    ValBounds(s);
    WeightIsPow2(|s|);
    ModUnique(Val(s), Pow2(32 * |s|), 0, Val(s));
  }

  lemma {:induction false} AllDivided(a: int, b: int, quot: int, q: int, r: int)
    requires b > 0 && Divided(a, b, 0, quot, q, r)
    ensures a == q * b + r && 0 <= r < b && q == a / b && r == a % b
  {
    assert Pow2(0) == 1;
    ModUnique(a, b, quot, r);
  }

  /** Binary long division; no result (two null handles) for a zero or null divisor. */
  method DivMod(a: Big?, b: Big?) returns (q: Big?, r: Big?)
    requires (a != null ==> a.Valid()) && (b != null ==> b.Valid())
    requires b != null && b.Number() != 0 ==> a != null
    ensures (q == null <==> r == null) && (q == null <==> b == null || b.Number() == 0)
    ensures q != null ==> fresh(q) && fresh(q.limbs) && fresh(r) && fresh(r.limbs) && q.Valid() && r.Valid()
    ensures q != null ==> a.Number() == q.Number() * b.Number() + r.Number() && 0 <= r.Number() < b.Number()
  {
    hide Val, Weight, Pow2, Divided;
    var zero := IsZero(b);
    if zero { return null, null; }
    ValBounds(b.limbs[..b.len]);
    var quotient := FromU64(0);
    var rest := FromU64(0);
    ghost var quot, A, B := 0, a.Number(), b.Number();
    NothingDivided(a.limbs[..a.len], B);
    var i := a.len;
    while i > 0
      invariant 0 <= i <= a.len && unchanged(a) && unchanged(a.limbs) && unchanged(b) && unchanged(b.limbs)
      invariant fresh(quotient) && fresh(quotient.limbs) && fresh(rest) && fresh(rest.limbs)
      invariant quotient.Valid() && rest.Valid() && rest != quotient && rest.limbs != quotient.limbs
      invariant Divided(A, B, 32 * i, quot, quotient.Number(), rest.Number())
    {
      i := i - 1;
      var bit := 32;
      while bit > 0
        invariant 0 <= bit <= 32 && unchanged(a) && unchanged(a.limbs) && unchanged(b) && unchanged(b.limbs)
        invariant fresh(quotient) && fresh(quotient.limbs) && fresh(rest) && fresh(rest.limbs)
        invariant quotient.Valid() && rest.Valid() && rest != quotient && rest.limbs != quotient.limbs
        invariant Divided(A, B, 32 * i + bit, quot, quotient.Number(), rest.Number())
      {
        bit := bit - 1;
        rest, quot := DivideStep(a, b, quotient, rest, i, bit, quot);
      }
    }
    AllDivided(A, B, quot, quotient.Number(), rest.Number());
    q, r := quotient, rest;
  }

  method Div(a: Big?, b: Big?) returns (q: Big?)
    requires (a != null ==> a.Valid()) && (b != null ==> b.Valid())
    requires b != null && b.Number() != 0 ==> a != null
    ensures q == null <==> b == null || b.Number() == 0
    ensures q != null ==> fresh(q) && fresh(q.limbs) && q.Valid() && q.Number() == a.Number() / b.Number()
  {
    hide Val;
    var r: Big?;
    q, r := DivMod(a, b);
    if q != null { ModUnique(a.Number(), b.Number(), q.Number(), r.Number()); }
  }

  method Mod(a: Big?, b: Big?) returns (r: Big?)
    requires (a != null ==> a.Valid()) && (b != null ==> b.Valid())
    requires b != null && b.Number() != 0 ==> a != null
    ensures r == null <==> b == null || b.Number() == 0
    ensures r != null ==> fresh(r) && fresh(r.limbs) && r.Valid() && r.Number() == a.Number() % b.Number()
  {
    hide Val;
    var q: Big?;
    q, r := DivMod(a, b);
    if q != null { ModUnique(a.Number(), b.Number(), q.Number(), r.Number()); }
  }

  // ----- greatest common divisor -----

  ghost predicate Divides(d: int, n: int) { exists k :: n == k * d }

  /** g is divided by exactly the numbers that divide both a and b. */
  ghost predicate IsGcd(g: int, a: int, b: int) {
    forall d :: Divides(d, g) <==> Divides(d, a) && Divides(d, b)
  }

  lemma {:induction false} DividesSum(d: int, a: int, b: int, q: int)
    requires Divides(d, a) && Divides(d, b)
    ensures Divides(d, a + q * b)
  {
    var k :| a == k * d;
    var l :| b == l * d;
    MulAssoc(q, l, d);
    MulAdd(k, 0 - q * l, d);
    assert a + q * b == (k + q * l) * d;
  }

  lemma {:induction false} DividesZero(d: int)
    ensures Divides(d, 0)
  {
    assert 0 == 0 * d;
  }

  /** Replacing (a, b) by (b, a mod b) keeps the common divisors. */
  lemma {:induction false} GcdStep(a: int, b: int, q: int, r: int, g: int)
    requires a == q * b + r
    ensures IsGcd(g, b, r) <==> IsGcd(g, a, b)
  {
    forall d
      ensures (Divides(d, b) && Divides(d, r)) <==> (Divides(d, a) && Divides(d, b))
    {
      if Divides(d, b) && Divides(d, r) { DividesSum(d, r, b, q); }
      if Divides(d, a) && Divides(d, b) {
        DividesSum(d, a, b, -q);
        assert a + -q * b == r by { MulAdd(0, q, b); }
      }
    }
  }

  lemma {:induction false} GcdZero(a: int)
    ensures IsGcd(a, a, 0)
  {
    forall d
      ensures Divides(d, 0)
    {
      DividesZero(d);
    }
  }

  method Copy(a: Big?) returns (r: Big?)
    requires a != null ==> a.Valid()
    ensures r == null <==> a == null
    ensures r != null ==> fresh(r) && fresh(r.limbs) && r.Valid() && r.Number() == a.Number()
  {
    if a == null { return null; }
    var copy := new Big(a.len);
    var i := 0;
    while i < a.len
      invariant 0 <= i <= a.len && copy.len == copy.limbs.Length == a.len && fresh(copy) && fresh(copy.limbs)
      invariant copy.limbs[..i] == a.limbs[..i]
    {
      copy.limbs[i] := a.limbs[i];
      i := i + 1;
    }
    assert copy.limbs[..copy.len] == a.limbs[..a.len];
    r := copy;
  }

  /** Euclid's algorithm; it ends because the second number shrinks. */
  method Gcd(a: Big?, b: Big?) returns (g: Big?)
    requires (a != null ==> a.Valid()) && (b != null ==> b.Valid())
    requires b != null && b.Number() != 0 ==> a != null
    ensures a == null ==> g == null
    ensures a != null ==> g != null && fresh(g) && fresh(g.limbs) && g.Valid() && IsGcd(g.Number(), a.Number(), if b == null then 0 else b.Number())
  {
    hide Val, IsGcd;
    if a == null { return null; }
    ghost var A, B := a.Number(), if b == null then 0 else b.Number();
    var x := Copy(a);
    var y := Copy(b);
    var done := IsZero(y);
    ghost var rest := B;
    if b != null { ValBounds(b.limbs[..b.len]); }
    while !done
      invariant x != null && fresh(x) && fresh(x.limbs) && x.Valid()
      invariant y != null ==> fresh(y) && fresh(y.limbs) && y.Valid() && y.Number() == rest
      invariant done <==> y == null || rest == 0
      invariant y == null ==> rest == 0
      invariant rest >= 0
      invariant forall g {:trigger IsGcd(g, A, B)} :: IsGcd(g, x.Number(), rest) <==> IsGcd(g, A, B)
      decreases rest
    {
      var r := Mod(x, y);
      ghost var before, divisor := x.Number(), rest;
      forall g
        ensures IsGcd(g, divisor, r.Number()) <==> IsGcd(g, before, divisor)
      {
        GcdStep(before, divisor, before / divisor, r.Number(), g);
      }
      x, y := y, r;
      rest := r.Number();
      done := IsZero(y);
    }
    GcdZero(x.Number());
    g := x;
    assert IsGcd(g.Number(), A, B);
  }
}
