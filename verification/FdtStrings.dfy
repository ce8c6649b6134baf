/** Property values that read as strings: what parsing the strings gives. */
module FdtStrings {
  import opened Arithmetic
  import opened Numerals
  import opened Fdt

  // ----- splitting and putting together

  lemma StringsShift(a: string, args: seq<string>, k: nat)
    requires k <= |args|
    ensures Strings([a] + args, k + 1) == Strings(args, k)
  {
    SameStrings([a] + args, args, k);
  }

  lemma {:induction false} SameStrings(all: seq<string>, args: seq<string>, k: nat)
    requires |all| == |args| + 1 && k <= |args| && forall i :: 0 <= i < |args| ==> args[i] == all[i + 1]
    ensures Strings(all, k + 1) == Strings(args, k)
    decreases |args| - k
  {
    if k < |args| { SameStrings(all, args, k + 1); }
  }

  lemma StringsCons(all: seq<string>, a: string, args: seq<string>, rest: seq<Byte>, whole: seq<Byte>)
    requires all == [a] + args && Strings(args, 0) == rest && Codes(a) + [0] + rest == whole
    ensures Strings(all, 0) == whole
  {
    StringsShift(a, args, 0);
  }

  lemma SplitStep(data: seq<Byte>, i: nat, n: nat)
    requires i < |data| && n == NulFrom(data, i) < |data|
    ensures Split(data, i) == [StringAt(data, i, n)] + Split(data, n + 1)
  {
  }

  /** The bytes from position `i` on. */
  function From(data: seq<Byte>, i: nat): seq<Byte>
    requires i <= |data|
    decreases |data| - i
  {
    if i == |data| then [] else [data[i]] + From(data, i + 1)
  }

  lemma {:induction false} FromIsSuffix(data: seq<Byte>, i: nat)
    requires i <= |data|
    ensures From(data, i) == data[i..]
    decreases |data| - i
  {
    if i < |data| { FromIsSuffix(data, i + 1); }
  }

  lemma CodesCons(c: char, s: string)
    ensures Codes([c] + s) == [Code(c)] + Codes(s)
  {
    assert ([c] + s)[1..] == s;
  }

  lemma {:induction false} FirstBytes(data: seq<Byte>, i: nat, n: nat)
    requires i <= n < |data| && data[n] == 0
    ensures Codes(StringAt(data, i, n)) + [0] + From(data, n + 1) == From(data, i)
    decreases n - i
  {
    if i < n {
      FirstBytes(data, i + 1, n);
      CodesCons(data[i] as char, StringAt(data, i + 1, n));
    }
  }

  lemma {:induction false} StringTerminated(data: seq<Byte>, i: nat, n: nat)
    requires i <= n <= |data| && forall m :: i <= m < n ==> data[m] != 0
    ensures Terminated(StringAt(data, i, n))
    decreases n - i
  {
    if i < n { StringTerminated(data, i + 1, n); }
  }

  lemma StringsStep(data: seq<Byte>, i: nat, n: nat)
    requires i < |data| && n == NulFrom(data, i) < |data| && Strings(Split(data, n + 1), 0) == From(data, n + 1)
    ensures Strings(Split(data, i), 0) == From(data, i)
  {
    var a, all, tail, rest, whole := StringAt(data, i, n), Split(data, i), Split(data, n + 1), From(data, n + 1), From(data, i);
    assert all == [a] + tail by { SplitStep(data, i, n); }
    assert Codes(a) + [0] + rest == whole by { FirstBytes(data, i, n); }
    StringsCons(all, a, tail, rest, whole);
  }

  /** The strings of a terminated value, each with its terminator, are the value. */
  lemma {:induction false} StringsOfSplit(data: seq<Byte>, i: nat)
    requires i <= |data| && EndsNul(data)
    ensures Strings(Split(data, i), 0) == From(data, i)
    decreases |data| - i
  {
    if i < |data| {
      var n := NulFrom(data, i);
      NulInside(data, i);
      StringsOfSplit(data, n + 1);
      StringsStep(data, i, n);
    }
  }

  // ----- how many characters a value costs

  /** Characters from argument `k` on. */
  function Total(args: seq<string>, k: nat): nat
    requires k <= |args|
    decreases |args| - k
  {
    if k == |args| then 0 else |args[k]| + Total(args, k + 1)
  }

  function Left(args: seq<string>, k: nat, i: nat): nat
    requires Inside(args, k, i)
  {
    if k == |args| then 0 else Total(args, k) - i
  }

  function Pow16(n: nat): nat {
    if n == 0 then 1 else 16 * Pow16(n - 1)
  }

  /** `n` digits denote less than 16 to the `n`. */
  lemma {:induction false} ScanSize(s: string, i: nat, base: nat, acc: nat)
    requires base <= 16
    ensures var r := Scan(s, i, base, acc); r.0 + 1 <= (acc + 1) * Pow16(r.1 - i)
    decreases |s| - i
  {
    if i < |s| && 0 <= DigitValue(s[i]) < base {
      var acc', r := (acc * base + DigitValue(s[i])) % WORD, Scan(s, i, base, acc);
      ScanSize(s, i + 1, base, acc');
      StepSize(acc, base, DigitValue(s[i]));
      Scale(acc' + 1, acc + 1, Pow16(r.1 - (i + 1)));
    }
  }

  lemma StepSize(acc: nat, base: nat, d: nat)
    requires d < base <= 16
    ensures (acc * base + d) % WORD + 1 <= 16 * (acc + 1)
  {
    assert acc * base <= acc * 16;
  }

  lemma Scale(a: nat, b: nat, p: nat)
    requires a <= 16 * b
    ensures a * p <= b * (16 * p)
  {
    assert (16 * b) * p == b * (16 * p);
  }

  lemma {:induction false} Pow16Grows(m: nat, n: nat)
    requires m <= n
    ensures 0 < Pow16(m) <= Pow16(n)
    decreases n
  {
    if m < n { Pow16Grows(m, n - 1); } else if m > 0 { Pow16Grows(m - 1, n - 1); }
  }

  lemma NumeralStart(s: string, i: nat, base: nat) returns (start: nat, radix: nat)
    requires base <= 16
    ensures i <= start && radix <= 16 && StrToUl(s, i, base) == Scan(s, start, radix, 0)
  {
    var zero := At(s, i) == '0';
    if zero && At(s, i + 1) == 'x' && DigitValue(At(s, i + 2)) >= 0 { return i + 2, 16; }
    if zero { return i + 1, if base == 0 then 8 else base; }
    return i, if base == 0 then 10 else base;
  }

  /** A number of at least 16 to the `n` takes more than `n` characters. */
  lemma NumberSize(s: string, i: nat, base: nat, n: nat)
    requires base <= 16 && StrToUl(s, i, base).0 >= Pow16(n)
    ensures StrToUl(s, i, base).1 - i > n
  {
    var start, radix := NumeralStart(s, i, base);
    ScanSize(s, start, radix, 0);
    var next := Scan(s, start, radix, 0).1;
    if next - start <= n { Pow16Grows(next - start, n); }
  }

  // ----- parsing strings that look like cells or bytes

  predicate Prefix(a: seq<Byte>, b: seq<Byte>) {
    |a| <= |b| && b[..|a|] == a
  }

  lemma PrefixTrans(a: seq<Byte>, b: seq<Byte>, c: seq<Byte>)
    requires Prefix(a + b, c)
    ensures Prefix(a, c) && c[|a|..|a| + |b|] == b
  {
    assert c[..|a|] == c[..|a + b|][..|a|];
    assert c[|a|..|a| + |b|] == c[..|a + b|][|a|..];
  }

  /** No two zero bytes in a row. */
  predicate Sparse(data: seq<Byte>) {
    forall i :: 0 <= i < |data| - 1 ==> data[i] != 0 || data[i + 1] != 0
  }

  lemma CellSize(v: nat, s: string, i: nat, out: seq<Byte>, at: nat)
    requires StrToUl(s, i, 0).0 == v && Sparse(out) && at + 4 <= |out| && out[at..at + 4] == BigEndian(v)
    ensures StrToUl(s, i, 0).1 - i >= 5
  {
    var b := BigEndian(v);
    assert out[at] == b[0] && out[at + 1] == b[1];
    assert v >= 65536;
    assert Pow16(4) == 65536;
    NumberSize(s, i, 0, 4);
  }

  /** Four bytes of a sparse value cost at least five characters. */
  lemma {:induction false} CellsCost(args: seq<string>, k: nat, i: nat, acc: seq<Byte>, beyond: char, out: seq<Byte>)
    requires Inside(args, k, i) && ParseCells(args, k, i, acc, beyond) == Value(out) && Sparse(out)
    ensures Prefix(acc, out) && 5 * (|out| - |acc|) <= 4 * Left(args, k, i)
    decreases |args| - k, if k < |args| then |args[k]| - i else 0
  {
    if CharAt(args, k, i, beyond) != '>' && k < |args| {
      if At(args[k], i) == '\0' {
        CellsCost(args, k + 1, 0, acc, beyond, out);
      } else {
        var (v, next) := StrToUl(args[k], i, 0);
        CellsCost(args, k, SkipSpaces(args[k], next), acc + BigEndian(v), beyond, out);
        PrefixTrans(acc, BigEndian(v), out);
        CellSize(v, args[k], i, out, |acc|);
      }
    }
  }

  /** Two for every byte that is not zero, one for a zero. */
  function Weight(data: seq<Byte>): nat {
    if data == [] then 0 else (if data[0] == 0 then 1 else 2) + Weight(data[1..])
  }

  /** Zero or too large for one digit. */
  predicate Wide(data: seq<Byte>) {
    forall i :: 0 <= i < |data| ==> data[i] == 0 || data[i] >= 16
  }

  lemma ByteSize(v: nat, s: string, i: nat, b: Byte)
    requires StrToUl(s, i, 16).0 == v && v % 256 == b && (b == 0 || b >= 16) && DigitValue(At(s, i)) >= 0
    ensures StrToUl(s, i, 16).1 - i >= if b == 0 then 1 else 2
  {
    HexAdvances(s, i);
    if b != 0 {
      assert Pow16(1) == 16;
      NumberSize(s, i, 16, 1);
    }
  }

  /** The bytes of a wide value cost their weight in characters. */
  lemma {:induction false} StreamCost(args: seq<string>, k: nat, i: nat, acc: seq<Byte>, beyond: char, out: seq<Byte>)
    requires Inside(args, k, i) && ParseStream(args, k, i, acc, beyond) == Value(out) && Wide(out)
    ensures Prefix(acc, out) && Weight(out[|acc|..]) <= Left(args, k, i)
    decreases |args| - k, if k < |args| then |args[k]| - i else 0
  {
    if CharAt(args, k, i, beyond) != ']' && k < |args| {
      var j := SkipSpaces(args[k], i);
      if j == |args[k]| {
        StreamCost(args, k + 1, 0, acc, beyond, out);
      } else if args[k][j] != ']' {
        var (v, next) := StrToUl(args[k], j, 16);
        HexAdvances(args[k], j);
        StreamCost(args, k, next, acc + [v % 256], beyond, out);
        PrefixTrans(acc, [v % 256], out);
        assert out[|acc|] == out[|acc|..|acc| + 1][0] == v % 256;
        ByteSize(v, args[k], j, v % 256);
        assert out[|acc|..][1..] == out[|acc| + 1..];
      }
    }
  }

  lemma {:induction false} WeightConcat(s: seq<Byte>, t: seq<Byte>)
    ensures Weight(s + t) == Weight(s) + Weight(t)
    decreases |s|
  {
    if s == [] {
      assert s + t == t;
    } else {
      WeightConcat(s[1..], t);
      assert (s + t)[1..] == s[1..] + t;
    }
  }

  lemma {:induction false} WeightOfString(s: string)
    requires Terminated(s)
    ensures Weight(Codes(s)) == 2 * |s|
    decreases |s|
  {
    if s != "" {
      WeightOfString(s[1..]);
      assert Codes(s)[1..] == Codes(s[1..]);
    }
  }

  /** Size and weight of strings with their terminators. */
  lemma {:induction false} StringsSize(args: seq<string>, k: nat)
    requires k <= |args| && forall j :: 0 <= j < |args| ==> Terminated(args[j])
    ensures |Strings(args, k)| == Total(args, k) + |args| - k
    ensures Weight(Strings(args, k)) == 2 * Total(args, k) + |args| - k
    decreases |args| - k
  {
    if k < |args| {
      var a, rest := Codes(args[k]), Strings(args, k + 1);
      StringsSize(args, k + 1);
      WeightOfString(args[k]);
      WeightConcat(a + [0], rest);
      WeightConcat(a, [0]);
      assert Weight([0]) == 1 + Weight([0][1..]) == 1;
    }
  }

  lemma {:induction false} SplitTerminated(data: seq<Byte>, i: nat)
    requires i <= |data|
    ensures forall j :: 0 <= j < |Split(data, i)| ==> Terminated(Split(data, i)[j])
    decreases |data| - i
  {
    if i < |data| {
      var n := NulFrom(data, i);
      StringTerminated(data, i, n);
      if n < |data| { SplitTerminated(data, n + 1); }
    }
  }

  /** The first string does not look like cells or bytes. */
  predicate PlainStart(data: seq<Byte>)
    requires data != []
  {
    data[0] != '<' as int && data[0] != '[' as int
  }

  lemma SplitStart(data: seq<Byte>)
    requires Printable(data)
    ensures Split(data, 0) != [] && At(Split(data, 0)[0], 0) == data[0] as char
    ensures Strings(Split(data, 0), 0) == data
  {
    StringsOfSplit(data, 0);
    FromIsSuffix(data, 0);
    var n := NulFrom(data, 0);
    assert Split(data, 0)[0] == StringAt(data, 0, n);
  }

  lemma LooksLikeCells(args: seq<string>, data: seq<Byte>, beyond: char)
    requires args != [] && args[0] != "" && (forall j :: 0 <= j < |args| ==> Terminated(args[j]))
    requires Strings(args, 0) == data && Printable(data)
    ensures ParseCells(args, 0, 1, [], beyond) != Value(data)
    ensures ParseStream(args, 0, 1, [], beyond) != Value(data)
  {
    StringsSize(args, 0);
    assert data[0..] == data;
    if ParseCells(args, 0, 1, [], beyond) == Value(data) { CellsCost(args, 0, 1, [], beyond, data); }
    if ParseStream(args, 0, 1, [], beyond) == Value(data) { StreamCost(args, 0, 1, [], beyond, data); }
  }

  /** Parsing the strings of a value that was printed as strings rebuilds it if
      and only if the first of them does not start with < or [: strings that do
      are taken for cells or bytes, which never spell themselves. */
  lemma StringsRoundTripIff(data: seq<Byte>, beyond: char)
    requires Printable(data)
    ensures Split(data, 0) != [] && (Parse(Split(data, 0), beyond) == Value(data) <==> PlainStart(data))
  {
    SplitStart(data);
    var args := Split(data, 0);
    if !PlainStart(data) {
      SplitTerminated(data, 0);
      LooksLikeCells(args, data, beyond);
    }
  }
}
