/** Symbols of generic instances (src/backend/backend_c_generic.c): every byte of the function's name and of
    each type argument as two hexadecimal digits, each text closed by an underscore. */
module Mangling {

  /** A byte of a C string: never the terminator. */
  type Byte = x: int | 0 < x < 256 witness 1
  type Text = seq<Byte>

  const PREFIX := "__reo_inst_"

  function HexChar(d: nat): (c: char)
    requires d < 16
  {
    if d < 10 then ('0' as int + d) as char else ('a' as int + d - 10) as char
  }

  function HexByte(b: Byte): (s: string)
    ensures |s| == 2
  {
    var n: int := b;
    [HexChar(n / 16), HexChar(n % 16)]
  }

  function HexText(t: Text): string { if t == [] then "" else HexByte(t[0]) + HexText(t[1..]) }

  function Field(t: Text): string { HexText(t) + "_" }

  function Fields(fs: seq<Text>): string { if fs == [] then "" else Field(fs[0]) + Fields(fs[1..]) }

  function Mangled(name: Text, arguments: seq<Text>): string { PREFIX + Fields([name] + arguments) }

  // ----- injectivity -----

  lemma {:induction false} HexByteInjective(b: Byte, c: Byte)
    ensures HexByte(b) == HexByte(c) ==> b == c
    ensures HexByte(b)[0] != '_' && HexByte(b)[0] != '\0' && HexByte(b)[1] != '\0'
  {
    var m: int, n: int := b, c;
    if HexByte(b) == HexByte(c) {
      assert HexByte(b)[0] == HexChar(m / 16) && HexByte(c)[0] == HexChar(n / 16);
      assert HexByte(b)[1] == HexChar(m % 16) && HexByte(c)[1] == HexChar(n % 16);
    }
  }

  lemma {:induction false} FieldStep(t: Text)
    requires t != []
    ensures Field(t) == HexByte(t[0]) + Field(t[1..])
  {
    Associative(HexByte(t[0]), HexText(t[1..]), "_");
  }

  lemma {:induction false} Associative(x: string, y: string, z: string)
    ensures x + y + z == x + (y + z)
  {
  }

  /** Equal strings with fronts of the same length agree on the fronts and on the rests. */
  lemma {:induction false} Cancel(x: string, y: string, u: string, v: string)
    requires |x| == |u| && x + y == u + v
    ensures x == u && y == v
  {
    assert (x + y)[..|x|] == x && (x + y)[|x|..] == y;
    assert (u + v)[..|u|] == u && (u + v)[|u|..] == v;
  }

  /** A text ends where the first underscore stands, so what follows it cannot change how it is read. */
  lemma {:induction false} FieldReadsBack(a: Text, b: Text, x: string, y: string)
    requires Field(a) + x == Field(b) + y
    ensures a == b && x == y
  {
    hide HexByte, Field;
    FieldStarts(a, x);
    FieldStarts(b, y);
    if a == [] && b == [] {
      Cancel("_", x, "_", y);
    } else if a != [] && b != [] {
      FieldStep(a);
      FieldStep(b);
      Associative(HexByte(a[0]), Field(a[1..]), x);
      Associative(HexByte(b[0]), Field(b[1..]), y);
      Cancel(HexByte(a[0]), Field(a[1..]) + x, HexByte(b[0]), Field(b[1..]) + y);
      HexByteInjective(a[0], b[0]);
      FieldReadsBack(a[1..], b[1..], x, y);
      assert a == [a[0]] + a[1..] && b == [b[0]] + b[1..];
    }
  }

  /** The first character tells the empty text from the others. */
  lemma {:induction false} FieldStarts(t: Text, x: string)
    ensures Field(t) != "" && ((Field(t) + x)[0] == '_' <==> t == [])
    ensures t == [] ==> Field(t) == "_"
  {
    if t != [] {
      FieldStep(t);
      HexByteInjective(t[0], t[0]);
    }
  }

  lemma {:induction false} FieldsInjective(f: seq<Text>, g: seq<Text>)
    requires Fields(f) == Fields(g)
    ensures f == g
  {
    hide Field;
    if f != [] { FieldStarts(f[0], ""); }
    if g != [] { FieldStarts(g[0], ""); }
    if f != [] && g != [] {
      FieldReadsBack(f[0], g[0], Fields(f[1..]), Fields(g[1..]));
      FieldsInjective(f[1..], g[1..]);
      assert f == [f[0]] + f[1..] && g == [g[0]] + g[1..];
    }
  }

  /** Different instances have different symbols. */
  lemma {:induction false} MangledInjective(n: Text, a: seq<Text>, m: Text, b: seq<Text>)
    requires Mangled(n, a) == Mangled(m, b)
    ensures n == m && a == b
  {
    assert Mangled(n, a)[|PREFIX|..] == Fields([n] + a) && Mangled(m, b)[|PREFIX|..] == Fields([m] + b);
    FieldsInjective([n] + a, [m] + b);
    assert ([n] + a)[0] == ([m] + b)[0] && ([n] + a)[1..] == a && ([m] + b)[1..] == b;
  }

  // ----- the buffer -----

  /** The C string in a buffer: up to the terminator. */
  function CString(s: seq<char>): string { if s == [] || s[0] == '\0' then "" else [s[0]] + CString(s[1..]) }

  lemma {:induction false} CStringUpTo(s: seq<char>, n: nat)
    requires n < |s| && s[n] == '\0' && forall i :: 0 <= i < n ==> s[i] != '\0'
    ensures CString(s) == s[..n]
  {
    if n > 0 {
      CStringUpTo(s[1..], n - 1);
      assert s[..n] == [s[0]] + s[1..][..n - 1];
    }
  }

  ghost predicate NoTerminator(s: string) { forall i :: 0 <= i < |s| ==> s[i] != '\0' }

  lemma {:induction false} HexSnoc(t: Text, b: Byte)
    ensures HexText(t + [b]) == HexText(t) + HexByte(b)
  {
    hide HexByte;
    if t == [] {
      assert t + [b] == [b] && [b][1..] == [];
      assert HexText([b]) == HexByte(b) + HexText([b][1..]);
    } else {
      HexSnoc(t[1..], b);
      assert (t + [b])[1..] == t[1..] + [b];
      Associative(HexByte(t[0]), HexText(t[1..]), HexByte(b));
    }
  }

  lemma {:induction false} HexLength(t: Text)
    ensures |HexText(t)| == 2 * |t|
  {
    if t != [] { HexLength(t[1..]); }
  }

  /** Each byte is written as two hexadecimal digits, the high one first. */
  lemma {:induction false} HexDigits(t: Text, i: nat)
    requires i < |t|
    ensures |HexText(t)| == 2 * |t| && |Field(t)| == 2 * |t| + 1 && Field(t)[2 * |t|] == '_'
    ensures var b: int := t[i];
      Field(t)[2 * i] == "0123456789abcdef"[b / 16] && Field(t)[2 * i + 1] == "0123456789abcdef"[b % 16]
  {
    HexLength(t);
    if i > 0 {
      HexDigits(t[1..], i - 1);
      FieldStep(t);
    }
  }

  lemma {:induction false} FieldsSplit(f: seq<Text>, g: seq<Text>)
    ensures Fields(f + g) == Fields(f) + Fields(g)
  {
    hide Field;
    if f == [] {
      assert f + g == g;
    } else {
      FieldsSplit(f[1..], g);
      assert (f + g)[1..] == f[1..] + g;
      Associative(Field(f[0]), Fields(f[1..]), Fields(g));
    }
  }

  /** One more field, and what it adds to the length; the symbol is never shorter than a part of it. */
  lemma {:induction false} FieldsTake(fs: seq<Text>, i: nat)
    requires i < |fs|
    ensures Fields(fs[..i + 1]) == Fields(fs[..i]) + Field(fs[i])
    ensures |Field(fs[i])| == 2 * |fs[i]| + 1
    ensures |Fields(fs[..i + 1])| <= |Fields(fs)|
  {
    HexLength(fs[i]);
    assert fs[..i] + [fs[i]] == fs[..i + 1] && fs[..i + 1] + fs[i + 1..] == fs;
    FieldsSplit(fs[..i], [fs[i]]);
    var one := [fs[i]];
    assert one[1..] == [] && Fields(one) == Field(fs[i]);
    FieldsSplit(fs[..i + 1], fs[i + 1..]);
  }

  /** Write one text and its underscore at position at; false when there is no room for them. */
  method WriteField(t: Text, out: array<char>, at: nat) returns (ok: bool, next: nat)
    requires at < out.Length && NoTerminator(out[..at])
    modifies out
    ensures ok <==> at + 2 * |t| + 1 < out.Length
    ensures ok ==> next == at + 2 * |t| + 1 && out[..next] == old(out[..at]) + Field(t) && NoTerminator(out[..next])
  {
    hide HexByte, HexText;
    ghost var start := out[..at];
    next := at;
    var k := 0;
    assert t[..0] == [];
    HexNothing();
    while k < |t|
      invariant 0 <= k <= |t| && next == at + 2 * k < out.Length
      invariant out[..next] == start + HexText(t[..k]) && NoTerminator(out[..next])
    {
      if next + 2 >= out.Length { return false, next; }
      HexSnoc(t[..k], t[k]);
      assert t[..k] + [t[k]] == t[..k + 1];
      HexByteInjective(t[k], t[k]);
      ghost var before := out[..next];
      out[next] := HexByte(t[k])[0];
      out[next + 1] := HexByte(t[k])[1];
      next := next + 2;
      assert out[..next] == before + HexByte(t[k]);
      Associative(start, HexText(t[..k]), HexByte(t[k]));
      k := k + 1;
    }
    assert t[..k] == t;
    if next + 1 >= out.Length { return false, next; }
    ghost var before := out[..next];
    out[next] := '_';
    next := next + 1;
    assert out[..next] == before + "_";
    Associative(start, HexText(t), "_");
    ok := true;
  }

  lemma {:induction false} HexNothing()
    ensures HexText([]) == ""
  {
  }

  /** The prefix; false when there is no room for it. */
  method WritePrefix(out: array<char>) returns (ok: bool)
    requires out.Length > 0
    modifies out
    ensures ok <==> |PREFIX| < out.Length
    ensures ok ==> out[..|PREFIX|] == PREFIX && NoTerminator(out[..|PREFIX|])
  {
    var at := 0;
    while at < |PREFIX|
      invariant 0 <= at <= |PREFIX| && at < out.Length && out[..at] == PREFIX[..at]
    {
      if at + 1 >= out.Length { return false; }
      out[at] := PREFIX[at];
      at := at + 1;
    }
    assert NoTerminator(PREFIX);
    ok := true;
  }

  /** c_generic_mangle: the buffer holds the symbol if it fits with its terminator, else the empty string. */
  method Mangle(name: Text, arguments: seq<Text>, out: array<char>) returns (ok: bool)
    modifies out
    ensures ok <==> |Mangled(name, arguments)| < out.Length
    ensures ok ==> CString(out[..]) == Mangled(name, arguments)
    ensures !ok ==> CString(out[..]) == ""
  {
    hide Fields, Field;
    ghost var fs := [name] + arguments;
    if out.Length == 0 { return false; }
    ok := WritePrefix(out);
    if !ok {
      out[0] := '\0';
      return;
    }
    FieldsNothing(fs);
    var i, at := -1, |PREFIX|;
    while i < |arguments|
      invariant -1 <= i <= |arguments| && at == |PREFIX| + |Fields(fs[..i + 1])| < out.Length
      invariant out[..at] == PREFIX + Fields(fs[..i + 1]) && NoTerminator(out[..at])
    {
      var t := if i < 0 then name else arguments[i];
      assert fs[i + 1] == t;
      FieldsTake(fs, i + 1);
      Associative(PREFIX, Fields(fs[..i + 1]), Field(t));
      ok, at := WriteField(t, out, at);
      if !ok {
        out[0] := '\0';
        return;
      }
      i := i + 1;
    }
    out[at] := '\0';
    assert fs[..i + 1] == fs;
    CStringUpTo(out[..], at);
    assert out[..][..at] == out[..at];
  }

  lemma {:induction false} FieldsNothing(fs: seq<Text>)
    ensures Fields(fs[..0]) == ""
  {
  }
}
