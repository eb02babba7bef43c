/**
 Cite tokens (packages/core/src/evidenceDetail.ts:433-438): a 32-bit hash of a source reference,
 printed in four base-36 characters that the renderer's pattern has to recognise.
 */
module CiteKey {
  import opened Options

  const WORD: int := 0x1_0000_0000
  const TOKENS: int := 1679616   // 36 to the fourth

  /** A UTF-16 code unit. */
  type CodeUnit = c: int | 0 <= c < 65536

  /** `x | 0`: the signed 32-bit integer with the same low 32 bits. */
  function Wrap32(x: int): (r: int)
    ensures -WORD / 2 <= r < WORD / 2
  {
    (x + WORD / 2) % WORD - WORD / 2
  }

  /** `Math.imul` */
  function Imul(a: int, b: int): int {
    Wrap32(a * b)
  }

  function Abs(x: int): nat {
    if x < 0 then -x else x
  }

  /** The polynomial the hash stands for, with no wrapping at all. */
  function Polynomial(ref: seq<CodeUnit>): nat {
    if ref == [] then 0 else 31 * Polynomial(ref[..|ref| - 1]) + ref[|ref| - 1]
  }

  /** In other words: each unit weighs 31 to the number of units after it. */
  lemma {:induction false} PolynomialJoins(a: seq<CodeUnit>, b: seq<CodeUnit>)
    ensures Polynomial(a + b) == Polynomial(a) * Pow31(|b|) + Polynomial(b)
    decreases |b|
  {
    if b == [] {
      assert a + b == a;
    } else {
      var n := |b| - 1;
      PolynomialJoins(a, b[..n]);
      assert (a + b)[..|a + b| - 1] == a + b[..n];
      assert 31 * (Polynomial(a) * Pow31(n)) == Polynomial(a) * Pow31(n + 1);
    }
  }

  lemma PolynomialOne(c: CodeUnit)
    ensures Polynomial([c]) == c
  {
    assert [c][..0] == [];
  }

  function Pow31(n: nat): nat {
    if n == 0 then 1 else 31 * Pow31(n - 1)
  }

  /** Wrapping gives the one number of 32 signed bits that differs by a multiple of two to the 32nd. */
  lemma Wrap32Is(x: int, r: int)
    ensures r == Wrap32(x) <==> -0x8000_0000 <= r < 0x8000_0000 && (x - r) % 0x1_0000_0000 == 0
  {
    var k := WrapsBy(x);
    if -WORD / 2 <= r < WORD / 2 && (x - r) % WORD == 0 {
      var j := (x - r) / WORD;
      assert Wrap32(x) - r == WORD * (j - k);
    }
    if r == Wrap32(x) { assert (WORD * k) % WORD == 0; }
  }

  lemma WrapsBy(x: int) returns (k: int)
    ensures x == Wrap32(x) + WORD * k
  {
    k := (x + WORD / 2) / WORD;
  }

  lemma SameWrap(x: int, y: int, k: int)
    requires x == y + WORD * k
    ensures Wrap32(x) == Wrap32(y)
  {
    var a := y + WORD / 2;
    assert x + WORD / 2 == a + WORD * k;
    assert (a + WORD * k) % WORD == a % WORD by {
      var q, r := a / WORD, a % WORD;
      assert a + WORD * k == WORD * (q + k) + r;
    }
  }

  /** Wrapping at every step gives the wrapped value of the exact step. */
  lemma WrapStep(p: int, c: int)
    ensures Wrap32(Imul(Wrap32(p), 31) + c) == Wrap32(31 * p + c)
  {
    var j := WrapsBy(p);
    var k := WrapsBy(Wrap32(p) * 31);
    SameWrap(31 * p + c, Imul(Wrap32(p), 31) + c, 31 * j + k);
  }

  // ---- Base 36 ----

  function Digit36(d: int): char
    requires 0 <= d < 36
  {
    if d < 10 then '0' + d as char else 'a' + (d - 10) as char
  }

  predicate IsDigit36(c: char) {
    '0' <= c <= '9' || 'a' <= c <= 'z'
  }

  function Value36(c: char): (d: int)
    requires IsDigit36(c)
    ensures 0 <= d < 36 && Digit36(d) == c
  {
    if c <= '9' then c as int - '0' as int else c as int - 'a' as int + 10
  }

  /** `toString(36)`: no leading zeros. */
  function Base36(n: nat): (s: string)
    ensures |s| >= 1 && forall i :: 0 <= i < |s| ==> IsDigit36(s[i])
  {
    if n < 36 then [Digit36(n)] else Base36(n / 36) + [Digit36(n % 36)]
  }

  function PadStart(s: string, width: nat): (r: string)
    ensures |r| == if |s| < width then width else |s|
    decreases if |s| < width then width - |s| else 0
  {
    if |s| < width then PadStart("0" + s, width) else s
  }

  function Decode36(s: string): nat
    requires forall i :: 0 <= i < |s| ==> IsDigit36(s[i])
  {
    if s == "" then 0 else 36 * Decode36(s[..|s| - 1]) + Value36(s[|s| - 1])
  }

  function Token(h: int): string {
    "c" + PadStart(Base36(Abs(h) % TOKENS), 4)
  }

  /** The renderer's `c[a-z0-9]{4}`. */
  predicate RendererAccepts(token: string) {
    |token| == 5 && token[0] == 'c' && forall i :: 1 <= i < 5 ==> IsDigit36(token[i])
  }

  method CiteKey(ref: seq<CodeUnit>) returns (r: Option<string>)
    ensures r == if ref == [] then None else Some(Token(Wrap32(Polynomial(ref))))
  {
    if ref == [] { return None; }
    var h := 0;
    for i := 0 to |ref|
      invariant h == Wrap32(Polynomial(ref[..i]))
    {
      WrapStep(Polynomial(ref[..i]), ref[i]);
      assert ref[..i + 1][..i] == ref[..i];
      h := Wrap32(Imul(h, 31) + ref[i]);
    }
    assert ref[..|ref|] == ref;
    r := Some(Token(h));
  }

  // ---- Tokens are recognised, and can be read back ----

  lemma {:induction false} Base36Length(n: nat, bound: nat, width: nat)
    requires n < bound && bound == Pow36(width) && width >= 1
    ensures |Base36(n)| <= width
    decreases width
  {
    if n >= 36 { Base36Length(n / 36, Pow36(width - 1), width - 1); }
  }

  function Pow36(w: nat): nat {
    if w == 0 then 1 else 36 * Pow36(w - 1)
  }

  lemma {:induction false} DecodeBase36(n: nat)
    ensures Decode36(Base36(n)) == n
  {
    var s := Base36(n);
    if n < 36 {
      assert s[..0] == "";
    } else {
      DecodeBase36(n / 36);
      assert s[..|s| - 1] == Base36(n / 36);
    }
  }

  lemma {:induction false} DecodePadded(s: string, width: nat)
    requires forall i :: 0 <= i < |s| ==> IsDigit36(s[i])
    ensures forall i :: 0 <= i < |PadStart(s, width)| ==> IsDigit36(PadStart(s, width)[i])
    ensures Decode36(PadStart(s, width)) == Decode36(s)
    decreases if |s| < width then width - |s| else 0
  {
    if |s| < width {
      LeadingZero(s);
      DecodePadded("0" + s, width);
    }
  }

  lemma {:induction false} LeadingZero(s: string)
    requires forall i :: 0 <= i < |s| ==> IsDigit36(s[i])
    ensures forall i :: 0 <= i < |"0" + s| ==> IsDigit36(("0" + s)[i])
    ensures Decode36("0" + s) == Decode36(s)
    decreases |s|
  {
    if s == "" {
      assert ("0" + s)[..0] == "";
    } else {
      LeadingZero(s[..|s| - 1]);
      assert ("0" + s)[..|s|] == "0" + s[..|s| - 1];
    }
  }

  /** The digits are 0 to 9 and then a to z, in that order. */
  lemma DigitsInOrder(d: int)
    requires 0 <= d < 36
    ensures Digit36(d) == "0123456789abcdefghijklmnopqrstuvwxyz"[d] && Value36(Digit36(d)) == d
  {
  }

  /** Every token has the shape the renderer looks for, and decodes to the hash's residue. */
  lemma TokenShape(h: int)
    ensures RendererAccepts(Token(h))
    ensures Decode36(Token(h)[1..]) == (if h < 0 then -h else h) % 1679616
  {
    var n := Abs(h) % TOKENS;
    var s := Base36(n);
    assert Pow36(4) == TOKENS by { assert Pow36(2) == 1296; }
    Base36Length(n, TOKENS, 4);
    DecodeBase36(n);
    DecodePadded(s, 4);
    assert Token(h)[1..] == PadStart(s, 4);
  }

  /** Two references share a token exactly when their hashes agree modulo the number of tokens. */
  lemma TokenCollides(ref: seq<CodeUnit>, ref': seq<CodeUnit>)
    ensures Token(Wrap32(Polynomial(ref))) == Token(Wrap32(Polynomial(ref')))
       <==> Abs(Wrap32(Polynomial(ref))) % TOKENS == Abs(Wrap32(Polynomial(ref'))) % TOKENS
  {
    TokenShape(Wrap32(Polynomial(ref)));
    TokenShape(Wrap32(Polynomial(ref')));
  }
}
