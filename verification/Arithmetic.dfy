/** Bytes, powers of two and division, shared by the other modules. */
module Arithmetic {

  type Byte = x: int | 0 <= x < 256

  /** How many values a 32-bit word has. */
  const WORD: nat := 0x1_0000_0000

  /** A word in memory, most significant byte first. */
  function BigEndian(v: nat): (b: seq<Byte>)
    ensures |b| == 4
  {
    [v / 0x100_0000 % 256, v / 0x1_0000 % 256, v / 0x100 % 256, v % 256]
  }

  function Sum(s: seq<Byte>): nat {
    if s == [] then 0 else Sum(s[..|s| - 1]) + s[|s| - 1]
  }

  lemma {:induction false} SumConcat(s: seq<Byte>, t: seq<Byte>)
    ensures Sum(s + t) == Sum(s) + Sum(t)
    decreases |t|
  {
    if t == [] {
      assert s + t == s;
    } else {
      SumConcat(s, t[..|t| - 1]);
      assert (s + t)[..|s + t| - 1] == s + t[..|t| - 1];
    }
  }

  lemma {:induction false} SumUpdate(s: seq<Byte>, i: nat, b: Byte)
    requires i < |s|
    ensures Sum(s[i := b]) == Sum(s) - s[i] + b
    decreases |s|
  {
    var last := |s| - 1;
    if i == last {
      assert s[i := b][..last] == s[..last];
    } else {
      SumUpdate(s[..last], i, b);
      assert s[i := b][..last] == s[..last][i := b];
    }
  }

  lemma ConcatAssoc<T>(s: seq<T>, t: seq<T>, u: seq<T>)
    ensures s + (t + u) == s + t + u
  {
  }

  function Pow2(k: nat): nat {
    if k == 0 then 1 else 2 * Pow2(k - 1)
  }

  lemma {:induction false} Pow2Positive(k: nat)
    ensures 0 < Pow2(k)
  {
    if k > 0 { Pow2Positive(k - 1); }
  }

  lemma {:induction false} Pow2Increases(j: nat, k: nat)
    requires j < k
    ensures 0 < Pow2(j) < Pow2(k)
    decreases k
  {
    if j < k - 1 {
      Pow2Increases(j, k - 1);
    } else {
      Pow2Positive(j);
    }
  }

  lemma {:induction false} Pow2Add(j: nat, k: nat)
    ensures Pow2(j + k) == Pow2(j) * Pow2(k)
    decreases k
  {
    if k > 0 {
      Pow2Add(j, k - 1);
      assert Pow2(j + k) == 2 * Pow2(j + (k - 1));
    }
  }

  function Quotient(a: nat, d: nat): nat
    requires 0 < d
  {
    a / d
  }

  function Remainder(a: nat, d: nat): nat
    requires 0 < d
  {
    a % d
  }

  /** Quotient and remainder are determined by the division equation. */
  lemma DivModUnique(a: int, d: int, q: int, r: int)
    requires 0 < d && 0 <= r < d && a == q * d + r
    ensures a / d == q && a % d == r
  {
    var k := q - a / d;
    assert k * d == a % d - r;
    assert k >= 1 ==> k * d >= d;
    assert k <= -1 ==> k * d <= -d;
  }

  lemma MulCancel(h: int, bound: int, d: int)
    requires 0 < d && h * d < bound * d
    ensures h < bound
  {
  }

  lemma MulPositive(m: int, d: int)
    requires 0 < m && 0 < d
    ensures 0 < m * d
  {
    assert m * d >= d;
  }

  /** Reducing modulo a multiple first changes nothing. */
  lemma ModOfMod(a: nat, d: nat, m: nat)
    requires 0 < d && 0 < m
    ensures 0 < m * d && (a % (m * d)) % d == a % d
  {
    MulPositive(m, d);
    var q, r := a / (m * d), a % (m * d);
    ModOfSum(q * m, d, r);
    assert a == q * (m * d) + r && q * (m * d) == (q * m) * d;
  }

  /** Adding a multiple of the modulus changes nothing. */
  lemma ModOfSum(k: int, d: int, r: int)
    requires 0 < d
    ensures (k * d + r) % d == r % d
  {
    var q, t := r / d, r % d;
    assert r == q * d + t && k * d + r == (k + q) * d + t;
    DivModUnique(k * d + r, d, k + q, t);
  }

  lemma RemainderBound(r: nat, m: nat, t: nat, d: nat)
    requires r < m && t < d
    ensures r * d + t < m * d
  {
    assert (r + 1) * d <= m * d;
    assert (r + 1) * d == r * d + d;
  }

  /** Dividing twice is dividing by the product. */
  lemma DivDiv(a: nat, d: nat, m: nat)
    requires 0 < d && 0 < m
    ensures 0 < m * d && a / (m * d) == a / d / m
  {
    MulPositive(m, d);
    var v, t := a / d, a % d;
    var q, r := v / m, v % m;
    RemainderBound(r, m, t, d);
    assert a == v * d + t && v == q * m + r;
    assert v * d == q * (m * d) + r * d;
    DivModUnique(a, m * d, q, r * d + t);
  }
}
