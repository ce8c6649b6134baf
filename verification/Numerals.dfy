/** Numerals as the library prints and reads them. */
module Numerals {
  import opened Arithmetic

  /** The value of a hexadecimal digit of either case; -1 for other characters. */
  function DigitValue(c: char): (v: int)
    ensures -1 <= v < 16
  {
    if '0' <= c <= '9' then c as int - '0' as int
    else if 'a' <= c <= 'f' then c as int - 'a' as int + 10
    else if 'A' <= c <= 'F' then c as int - 'A' as int + 10
    else -1
  }

  function DigitChar(v: nat): (c: char)
    requires v < 16
    ensures DigitValue(c) == v && c != 'x' && '0' <= c <= 'f' && (c == '0' <==> v == 0)
  {
    if v < 10 then '0' + v as char else 'a' + (v - 10) as char
  }

  /** The character at a position of a terminated string. */
  function At(s: string, i: nat): char {
    if i < |s| then s[i] else '\0'
  }

  /** The digit loop of `simple_strtoul`: value and position reached. */
  function Scan(s: string, i: nat, base: nat, acc: nat): (r: (nat, nat))
    ensures r.1 >= i && (i <= |s| ==> r.1 <= |s|)
    decreases |s| - i
  {
    if i < |s| && 0 <= DigitValue(s[i]) < base then Scan(s, i + 1, base, (acc * base + DigitValue(s[i])) % WORD)
    else (acc, i)
  }

  /** `simple_strtoul` from position `i`: a leading 0 is skipped, and 0x before a
      hexadecimal digit overrides the base. */
  function StrToUl(s: string, i: nat, base: nat): (r: (nat, nat))
    ensures r.1 >= i && (i <= |s| ==> r.1 <= |s|)
  {
    var zero := At(s, i) == '0';
    if zero && At(s, i + 1) == 'x' && DigitValue(At(s, i + 2)) >= 0 then Scan(s, i + 2, 16, 0)
    else if zero then Scan(s, i + 1, if base == 0 then 8 else base, 0)
    else Scan(s, i, if base == 0 then 10 else base, 0)
  }

  /** A number without leading zeros. */
  function Digits(v: nat, base: nat): (s: string)
    requires 2 <= base <= 16
    ensures |s| > 0
    decreases v
  {
    if v < base then [DigitChar(v)] else (DivStep(v, base); Digits(v / base, base)) + [DigitChar(v % base)]
  }

  /** Two hexadecimal digits. */
  function TwoDigits(v: nat): string
    requires v < 256
  {
    [DigitChar(v / 16), DigitChar(v % 16)]
  }

  /** `t` stands in `s` at position `i`. */
  predicate Has(s: string, i: nat, t: string) {
    i + |t| <= |s| && s[i..i + |t|] == t
  }

  /** Nothing at position `i` continues a numeral. */
  predicate Ends(s: string, i: nat) {
    i < |s| ==> DigitValue(s[i]) < 0
  }

  lemma HasParts(s: string, i: nat, t: string, u: string)
    requires Has(s, i, t + u)
    ensures Has(s, i, t) && Has(s, i + |t|, u)
  {
    var w := s[i..i + |t + u|];
    assert s[i..i + |t|] == w[..|t|] && s[i + |t|..i + |t| + |u|] == w[|t|..];
  }

  lemma DivStep(v: nat, base: nat)
    requires base <= v && 2 <= base
    ensures v / base * base + v % base == v && v / base < v
  {
  }

  lemma LastDigit(v: nat, base: nat) returns (q: nat, d: nat)
    requires 2 <= base <= 16 && base <= v
    ensures q * base + d == v && q < v && d < base && Digits(v, base) == Digits(q, base) + [DigitChar(d)]
  {
    DivStep(v, base);
    q, d := v / base, v % base;
  }

  lemma ScanStep(s: string, i: nat, base: nat, acc: nat, d: nat, v: nat)
    requires d < base <= 16 && Has(s, i, [DigitChar(d)]) && acc * base + d == v < WORD
    ensures Scan(s, i, base, acc) == Scan(s, i + 1, base, v)
  {
    assert DigitValue(s[i]) == d by { assert s[i] == s[i..i + 1][0]; }
    assert (acc * base + DigitValue(s[i])) % WORD == v;
  }

  lemma {:induction false} ScanDigits(s: string, i: nat, v: nat, base: nat)
    requires 2 <= base <= 16 && v < WORD && Has(s, i, Digits(v, base))
    ensures Scan(s, i, base, 0) == Scan(s, i + |Digits(v, base)|, base, v)
    decreases v
  {
    if v < base {
      ScanStep(s, i, base, 0, v, v);
    } else {
      var q, d := LastDigit(v, base);
      var init := Digits(q, base);
      HasParts(s, i, init, [DigitChar(d)]);
      ScanDigits(s, i, q, base);
      ScanStep(s, i + |init|, base, q, d, v);
    }
  }

  lemma {:induction false} FirstDigit(v: nat, base: nat)
    requires 2 <= base <= 16
    ensures DigitValue(Digits(v, base)[0]) >= 0 && (Digits(v, base)[0] == '0' <==> v == 0)
    decreases v
  {
    if v >= base { FirstDigit(v / base, base); }
  }

  /** A printed number is read back in its own base. */
  lemma ReadsBack(s: string, i: nat, v: nat, base: nat)
    requires 2 <= base <= 16 && v < WORD
    requires Has(s, i, Digits(v, base)) && Ends(s, i + |Digits(v, base)|) && At(s, i + |Digits(v, base)|) != 'x'
    ensures StrToUl(s, i, base) == (v, i + |Digits(v, base)|)
  {
    var d := Digits(v, base);
    FirstDigit(v, base);
    assert s[i] == s[i..i + |d|][0] == d[0];
    if v != 0 { ScanDigits(s, i, v, base); }
  }

  /** Hexadecimal with its 0x is read back when the base is left open. */
  lemma ReadsBackHex(s: string, i: nat, v: nat)
    requires v < WORD && Has(s, i, "0x" + Digits(v, 16)) && Ends(s, i + 2 + |Digits(v, 16)|)
    ensures StrToUl(s, i, 0) == (v, i + 2 + |Digits(v, 16)|)
  {
    var d := Digits(v, 16);
    HasParts(s, i, "0x", d);
    FirstDigit(v, 16);
    assert s[i + 2] == s[i + 2..i + 2 + |d|][0] == d[0];
    assert s[i] == s[i..i + 2][0] && s[i + 1] == s[i..i + 2][1];
    ScanDigits(s, i + 2, v, 16);
  }

  lemma ReadsBackPair(s: string, i: nat, v: nat)
    requires v < 256 && Has(s, i, TwoDigits(v)) && Ends(s, i + 2)
    ensures StrToUl(s, i, 16) == (v, i + 2)
  {
    assert s[i] == s[i..i + 2][0] && s[i + 1] == s[i..i + 2][1];
    assert Scan(s, i + 1, 16, v / 16) == Scan(s, i + 2, 16, v);
  }

  // ----- every numeral

  /** Digits of a base, in either case, leading zeros allowed. */
  predicate IsNumeral(t: string, base: nat) {
    forall i :: 0 <= i < |t| ==> 0 <= DigitValue(t[i]) < base
  }

  /** What they stand for, each digit by its place. */
  function NumeralValue(t: string, base: nat): nat
    requires IsNumeral(t, base)
  {
    if t == "" then 0 else NumeralValue(t[..|t| - 1], base) * base + DigitValue(t[|t| - 1])
  }

  /** One more digit. */
  lemma NumeralStep(t: string, base: nat, n: nat)
    requires IsNumeral(t, base) && 0 < n <= |t|
    ensures NumeralValue(t[..n], base) == NumeralValue(t[..n - 1], base) * base + DigitValue(t[n - 1])
  {
    assert t[..n][..n - 1] == t[..n - 1];
  }

  lemma {:induction false} DigitsValue(v: nat, base: nat)
    requires 2 <= base <= 16
    ensures IsNumeral(Digits(v, base), base) && NumeralValue(Digits(v, base), base) == v
    decreases v
  {
    if v < base {
      assert Digits(v, base) == [DigitChar(v)] && [DigitChar(v)][..0] == "";
    } else {
      var q, d := LastDigit(v, base);
      DigitsValue(q, base);
      var t, init := Digits(v, base), Digits(q, base);
      assert t[..|t| - 1] == init && t[|t| - 1] == DigitChar(d);
    }
  }

  /** Position `i` is past the digits of a base. */
  predicate Stops(s: string, i: nat, base: nat) {
    i < |s| ==> !(0 <= DigitValue(s[i]) < base)
  }

  lemma WrapStep(x: nat, base: nat, d: nat)
    ensures (x % WORD * base + d) % WORD == (x * base + d) % WORD
  {
    var q, r := x / WORD, x % WORD;
    assert x == q * WORD + r;
    assert x * base + d == q * base * WORD + (r * base + d) by { Spread(q, WORD, r, base); }
    WholeWords(q * base, r * base + d);
  }

  lemma Spread(q: nat, w: nat, r: nat, base: nat)
    ensures (q * w + r) * base == q * base * w + r * base
  {
  }

  lemma WholeWords(k: nat, x: nat)
    ensures (k * WORD + x) % WORD == x % WORD
  {
  }

  function Fold(f: (nat, char) -> nat, acc: nat, s: string): nat
    decreases |s|
  {
    if s == "" then acc else Fold(f, f(acc, s[0]), s[1..])
  }

  lemma {:induction false} FoldLast(f: (nat, char) -> nat, acc: nat, init: string, c: char)
    ensures Fold(f, acc, init + [c]) == f(Fold(f, acc, init), c)
    decreases |init|
  {
    var t := init + [c];
    if init == "" {
      assert t[1..] == "";
    } else {
      assert t[1..] == init[1..] + [c];
      FoldLast(f, f(acc, init[0]), init[1..], c);
    }
  }

  /** What the digit loop makes of one more digit. */
  function DigitStep(base: nat): (nat, char) -> nat {
    (acc: nat, c: char) => (acc * base + DigitValue(c)) % WORD
  }

  lemma {:induction false} CollectValue(t: string, base: nat)
    requires IsNumeral(t, base)
    ensures Fold(DigitStep(base), 0, t) == NumeralValue(t, base) % WORD
    decreases |t|
  {
    if t != "" {
      var init, c := t[..|t| - 1], t[|t| - 1];
      assert t == init + [c];
      FoldLast(DigitStep(base), 0, init, c);
      CollectValue(init, base);
      StepWraps(NumeralValue(init, base), base, c);
    }
  }

  lemma StepWraps(x: nat, base: nat, c: char)
    requires DigitValue(c) >= 0
    ensures DigitStep(base)(x % WORD, c) == (x * base + DigitValue(c)) % WORD
  {
    WrapStep(x, base, DigitValue(c));
  }

  lemma HasTail(s: string, i: nat, t: string)
    requires Has(s, i, t) && t != ""
    ensures s[i] == t[0] && Has(s, i + 1, t[1..])
  {
    assert s[i] == s[i..i + |t|][0];
    assert s[i + 1..i + |t|] == s[i..i + |t|][1..];
  }

  lemma {:induction false} ScanCollects(s: string, i: nat, t: string, base: nat, acc: nat)
    requires IsNumeral(t, base) && Has(s, i, t)
    ensures Scan(s, i, base, acc) == Scan(s, i + |t|, base, Fold(DigitStep(base), acc, t))
    decreases |t|
  {
    if t != "" {
      HasTail(s, i, t);
      ScanCollects(s, i + 1, t[1..], base, DigitStep(base)(acc, t[0]));
    }
  }

  /** A numeral up to the first character that is no digit of it. */
  lemma ScanWhole(s: string, i: nat, t: string, base: nat)
    requires base <= 16 && IsNumeral(t, base) && Has(s, i, t) && Stops(s, i + |t|, base)
    ensures Scan(s, i, base, 0) == (NumeralValue(t, base) % WORD, i + |t|)
  {
    ScanCollects(s, i, t, base, 0);
    CollectValue(t, base);
  }

  /** A numeral in the base asked for, however large, is read modulo 2^32, up to
      the first character that is no digit of it. */
  lemma NumeralRead(s: string, i: nat, t: string, base: nat)
    requires 2 <= base <= 16 && IsNumeral(t, base) && Has(s, i, t) && Stops(s, i + |t|, base)
    requires !(At(s, i) == '0' && At(s, i + 1) == 'x')
    ensures StrToUl(s, i, base) == (NumeralValue(t, base) % WORD, i + |t|)
  {
    ScanWhole(s, i, t, base);
  }

  /** With the base left open, a numeral without a leading zero is decimal. */
  lemma OpenDecimal(s: string, i: nat, t: string)
    requires IsNumeral(t, 10) && t != "" && t[0] != '0' && Has(s, i, t) && Stops(s, i + |t|, 10)
    ensures StrToUl(s, i, 0) == (NumeralValue(t, 10) % WORD, i + |t|)
  {
    assert s[i] == t[0] by { assert s[i] == s[i..i + |t|][0]; }
    ScanWhole(s, i, t, 10);
  }

  /** ... one with a leading zero is octal ... */
  lemma OpenOctal(s: string, i: nat, t: string, base: nat, radix: nat)
    requires base == 0 && radix == 8 && IsNumeral(t, radix) && Stops(s, i + 1 + |t|, radix)
    requires At(s, i) == '0' && At(s, i + 1) != 'x' && Has(s, i + 1, t)
    ensures StrToUl(s, i, base) == (NumeralValue(t, radix) % WORD, i + 1 + |t|)
  {
    OctalStart(s, i, base, radix);
    ScanWhole(s, i + 1, t, radix);
  }

  lemma OctalStart(s: string, i: nat, base: nat, radix: nat)
    requires base == 0 && radix == 8 && At(s, i) == '0' && At(s, i + 1) != 'x'
    ensures StrToUl(s, i, base) == Scan(s, i + 1, radix, 0)
  {
  }

  /** ... and one with 0x hexadecimal, in any base. */
  lemma OpenHex(s: string, i: nat, t: string, base: nat)
    requires IsNumeral(t, 16) && t != "" && Stops(s, i + 2 + |t|, 16)
    requires At(s, i) == '0' && At(s, i + 1) == 'x' && Has(s, i + 2, t)
    ensures StrToUl(s, i, base) == (NumeralValue(t, 16) % WORD, i + 2 + |t|)
  {
    assert s[i + 2] == t[0] by { assert s[i + 2] == s[i + 2..i + 2 + |t|][0]; }
    ScanWhole(s, i + 2, t, 16);
  }

  // ----- numbers as C writes them

  /** `t` is number `v` in decimal, in octal with a leading zero, or in hexadecimal
      with 0x. */
  predicate CNumeral(t: string, v: nat) {
    || (t != "" && t[0] != '0' && IsNumeral(t, 10) && v == NumeralValue(t, 10))
    || (t != "" && t[0] == '0' && IsNumeral(t[1..], 8) && v == NumeralValue(t[1..], 8))
    || (|t| > 2 && t[..2] == "0x" && IsNumeral(t[2..], 16) && v == NumeralValue(t[2..], 16))
  }

  /** Character `c` does not continue a number. */
  predicate EndsNumber(c: char) {
    DigitValue(c) < 0 && c != 'x'
  }

  lemma CNumeralShape(t: string, v: nat)
    requires CNumeral(t, v)
    ensures 0 <= DigitValue(t[0]) < 10 && forall i :: 0 <= i < |t| ==> t[i] != ' '
  {
    if t[0] == '0' {
      assert forall i :: 1 <= i < |t| ==> t[i] == t[1..][i - 1];
      if |t| > 2 && t[..2] == "0x" && IsNumeral(t[2..], 16) {
        assert t[1] == t[..2][1];
        assert forall i :: 2 <= i < |t| ==> t[i] == t[2..][i - 2];
      }
    }
  }

  /** With the base left open such a number is read, modulo 2^32. */
  lemma CNumeralRead(s: string, i: nat, t: string, v: nat)
    requires CNumeral(t, v) && Has(s, i, t) && (i + |t| < |s| ==> EndsNumber(s[i + |t|]))
    ensures StrToUl(s, i, 0) == (v % WORD, i + |t|)
  {
    assert s[i] == t[0] by { assert s[i] == s[i..i + |t|][0]; }
    if t[0] != '0' {
      OpenDecimal(s, i, t);
    } else if IsNumeral(t[1..], 8) && v == NumeralValue(t[1..], 8) {
      OctalTail(s, i, t);
      OpenOctal(s, i, t[1..], 0, 8);
    } else {
      HexTail(s, i, t);
      OpenHex(s, i, t[2..], 0);
    }
  }

  lemma OctalTail(s: string, i: nat, t: string)
    requires Has(s, i, t) && t != "" && IsNumeral(t[1..], 8) && (i + |t| < |s| ==> EndsNumber(s[i + |t|]))
    ensures Has(s, i + 1, t[1..]) && At(s, i + 1) != 'x'
  {
    assert s[i + 1..i + |t|] == s[i..i + |t|][1..];
    if |t| > 1 { assert s[i + 1] == s[i + 1..i + |t|][0] == t[1..][0]; }
  }

  lemma HexTail(s: string, i: nat, t: string)
    requires Has(s, i, t) && |t| > 2 && t[..2] == "0x"
    ensures Has(s, i + 2, t[2..]) && s[i + 1] == 'x'
  {
    assert s[i + 2..i + |t|] == s[i..i + |t|][2..];
    assert s[i + 1] == s[i..i + |t|][1] == t[..2][1];
  }

  /** The printed hexadecimal form is one of them. */
  lemma HexIsCNumeral(v: nat)
    ensures CNumeral("0x" + Digits(v, 16), v)
  {
    var t := "0x" + Digits(v, 16);
    assert t[..2] == "0x" && t[2..] == Digits(v, 16);
    DigitsValue(v, 16);
  }

  // ----- where a number ends

  /** The digit loop stops at the first character that is no digit of the base. */
  lemma {:induction false} ScanEnd(s: string, i: nat, base: nat, acc: nat)
    requires i <= |s|
    ensures var n := Scan(s, i, base, acc).1;
            i <= n <= |s| && (forall j :: i <= j < n ==> 0 <= DigitValue(s[j]) < base) && Stops(s, n, base)
    decreases |s| - i
  {
    if i < |s| && 0 <= DigitValue(s[i]) < base {
      ScanEnd(s, i + 1, base, (acc * base + DigitValue(s[i])) % WORD);
    }
  }
}
