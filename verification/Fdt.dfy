/** Device tree properties on the command line: parsing the arguments of a set
    command into bytes, and printing bytes in the form that suits them.
 */
module Fdt {
  import opened Arithmetic
  import opened Numerals

  /** A character as the byte it is in memory. */
  function Code(c: char): Byte {
    c as int % 256
  }

  /** A terminated string holds no terminator. */
  predicate Terminated(s: string) {
    forall i :: 0 <= i < |s| ==> Code(s[i]) != 0
  }

  function Codes(s: string): (b: seq<Byte>)
    ensures |b| == |s|
  {
    if s == "" then [] else [Code(s[0])] + Codes(s[1..])
  }

  function CellAt(data: seq<Byte>, i: nat): (v: nat)
    requires i + 4 <= |data|
    ensures v < WORD
  {
    data[i] as int * 0x100_0000 + data[i + 1] as int * 0x1_0000 + data[i + 2] as int * 0x100 + data[i + 3]
  }

  lemma BigEndianOfCell(data: seq<Byte>, i: nat)
    requires i + 4 <= |data|
    ensures BigEndian(CellAt(data, i)) == data[i..i + 4]
  {
    var v := CellAt(data, i);
    assert v / 0x100_0000 == data[i];
    assert v / 0x1_0000 == data[i] as int * 0x100 + data[i + 1];
    assert v / 0x100 == data[i] as int * 0x1_0000 + data[i + 1] as int * 0x100 + data[i + 2];
  }

  // ----- parsing

  datatype Parsed = Value(bytes: seq<Byte>) | Malformed

  function SkipSpaces(s: string, i: nat): (j: nat)
    requires i <= |s|
    ensures i <= j <= |s| && At(s, j) != ' '
    decreases |s| - i
  {
    if At(s, i) == ' ' then SkipSpaces(s, i + 1) else i
  }

  /** A position in the argument list: at the end the argument pointer has left
      the list, and the character it points to is `beyond`. */
  predicate Inside(args: seq<string>, k: nat, i: nat) {
    k <= |args| && (k < |args| ==> i <= |args[k]|)
  }

  function CharAt(args: seq<string>, k: nat, i: nat, beyond: char): char
    requires Inside(args, k, i)
  {
    if k == |args| then beyond else At(args[k], i)
  }

  /** Cells from argument `k`, position `i` on, after `data`. */
  function ParseCells(args: seq<string>, k: nat, i: nat, data: seq<Byte>, beyond: char): Parsed
    requires Inside(args, k, i)
    decreases |args| - k, if k < |args| then |args[k]| - i else 0
  {
    if CharAt(args, k, i, beyond) == '>' then Value(data)
    else if k == |args| then Malformed
    else if At(args[k], i) == '\0' then ParseCells(args, k + 1, 0, data, beyond)
    else
      var (v, next) := StrToUl(args[k], i, 0);
      if next == i then Malformed else ParseCells(args, k, SkipSpaces(args[k], next), data + BigEndian(v), beyond)
  }

  lemma HexAdvances(s: string, i: nat)
    requires DigitValue(At(s, i)) >= 0
    ensures StrToUl(s, i, 16).1 > i
  {
  }

  /** Bytes from argument `k`, position `i` on, after `data`. */
  function ParseStream(args: seq<string>, k: nat, i: nat, data: seq<Byte>, beyond: char): Parsed
    requires Inside(args, k, i)
    decreases |args| - k, if k < |args| then |args[k]| - i else 0
  {
    if CharAt(args, k, i, beyond) == ']' then Value(data)
    else if k == |args| then Malformed
    else
      var j := SkipSpaces(args[k], i);
      if j == |args[k]| then ParseStream(args, k + 1, 0, data, beyond)
      else if args[k][j] == ']' then Value(data)
      else if DigitValue(args[k][j]) < 0 then Malformed
      else
        HexAdvances(args[k], j);
        var (v, next) := StrToUl(args[k], j, 16);
        ParseStream(args, k, next, data + [v % 256], beyond)
  }

  /** The strings from argument `k` on one after the other, each with its terminator. */
  function Strings(args: seq<string>, k: nat): seq<Byte>
    requires k <= |args|
    decreases |args| - k
  {
    if k == |args| then [] else Codes(args[k]) + [0] + Strings(args, k + 1)
  }

  function Parse(args: seq<string>, beyond: char): Parsed
    requires args != []
  {
    if At(args[0], 0) == '<' then ParseCells(args, 0, 1, [], beyond)
    else if At(args[0], 0) == '[' then ParseStream(args, 0, 1, [], beyond)
    else Value(Strings(args, 0))
  }

  method SkipBlanks(s: string, from: nat) returns (i: nat)
    requires from <= |s|
    ensures i == SkipSpaces(s, from)
  {
    i := from;
    while At(s, i) == ' '
      invariant i <= |s| && SkipSpaces(s, i) == SkipSpaces(s, from)
      decreases |s| - i
    {
      i := i + 1;
    }
  }

  method ParseCellArgs(args: seq<string>, beyond: char) returns (r: Parsed)
    requires args != [] && args[0] != ""
    ensures r == ParseCells(args, 0, 1, [], beyond)
  {
    var k, i := 0, 1;
    var data: seq<Byte> := [];
    while CharAt(args, k, i, beyond) != '>' && k < |args|
      invariant Inside(args, k, i) && ParseCells(args, k, i, data, beyond) == ParseCells(args, 0, 1, [], beyond)
      decreases |args| - k, if k < |args| then |args[k]| - i else 0
    {
      if At(args[k], i) == '\0' {
        k, i := k + 1, 0;
        continue;
      }
      var (v, next) := StrToUl(args[k], i, 0);
      if next == i { return Malformed; }
      data := data + BigEndian(v);
      i := SkipBlanks(args[k], next);
    }
    r := if CharAt(args, k, i, beyond) == '>' then Value(data) else Malformed;
  }

  method ParseStreamArgs(args: seq<string>, beyond: char) returns (r: Parsed)
    requires args != [] && args[0] != ""
    ensures r == ParseStream(args, 0, 1, [], beyond)
  {
    var k, i := 0, 1;
    var data: seq<Byte> := [];
    while k < |args| && CharAt(args, k, i, beyond) != ']'
      invariant Inside(args, k, i) && ParseStream(args, k, i, data, beyond) == ParseStream(args, 0, 1, [], beyond)
      decreases |args| - k, if k < |args| then |args[k]| - i else 0
    {
      var j := SkipBlanks(args[k], i);
      if j == |args[k]| {
        k, i := k + 1, 0;
        continue;
      }
      if DigitValue(args[k][j]) < 0 {
        return if args[k][j] == ']' then Value(data) else Malformed;
      }
      HexAdvances(args[k], j);
      var (v, next) := StrToUl(args[k], j, 16);
      data := data + [v % 256];
      i := next;
    }
    r := if CharAt(args, k, i, beyond) == ']' then Value(data) else Malformed;
  }

  /** `fdt_parse_prop`. */
  method FdtParseProp(args: seq<string>, beyond: char) returns (r: Parsed)
    requires args != []
    ensures r == Parse(args, beyond)
  {
    if At(args[0], 0) == '<' {
      r := ParseCellArgs(args, beyond);
    } else if At(args[0], 0) == '[' {
      r := ParseStreamArgs(args, beyond);
    } else {
      var data: seq<Byte> := [];
      for k := 0 to |args|
        invariant data + Strings(args, k) == Strings(args, 0)
      {
        ConcatAssoc(data, Codes(args[k]) + [0], Strings(args, k + 1));
        data := data + (Codes(args[k]) + [0]);
      }
      r := Value(data);
    }
  }

  // ----- printing

  /** `isprint`, which knows the Latin-1 characters too. */
  predicate IsPrint(b: Byte) {
    32 <= b <= 126 || 160 <= b
  }

  /** The value reads as one or more strings. */
  predicate Printable(data: seq<Byte>) {
    && data != []
    && data[|data| - 1] == 0
    && (forall i :: 0 <= i < |data| ==> data[i] == 0 || IsPrint(data[i]))
    && (forall i :: 0 <= i < |data| - 1 ==> data[i] != 0 || data[i + 1] != 0)
  }

  /** `is_printable_string`. */
  method IsPrintableString(data: seq<Byte>) returns (r: bool)
    ensures r == Printable(data)
  {
    if |data| == 0 { return false; }
    if data[|data| - 1] != 0 { return false; }
    var s := 0;
    while data[s] == 0 || IsPrint(data[s])
      invariant s < |data|
      invariant forall i :: 0 <= i < s ==> (data[i] == 0 || IsPrint(data[i])) && (data[i] != 0 || data[i + 1] != 0)
      decreases |data| - s
    {
      if data[s] == 0 {
        if |data| - s == 1 { return true; }
        if data[s + 1] == 0 { return false; }
      }
      s := s + 1;
    }
    return false;
  }

  /** Position of the first terminator from `i` on. */
  function NulFrom(data: seq<Byte>, i: nat): (j: nat)
    requires i <= |data|
    ensures i <= j <= |data| && (j < |data| ==> data[j] == 0) && forall m :: i <= m < j ==> data[m] != 0
    decreases |data| - i
  {
    if i == |data| || data[i] == 0 then i else NulFrom(data, i + 1)
  }

  /** The strings in a value from position `i` on. */
  function Split(data: seq<Byte>, i: nat): (r: seq<string>)
    requires i <= |data|
    decreases |data| - i
  {
    if i == |data| then []
    else
      var n := NulFrom(data, i);
      [StringAt(data, i, n)] + if n == |data| then [] else Split(data, n + 1)
  }

  /** The bytes from `i` up to `n` as a string. */
  function StringAt(data: seq<Byte>, i: nat, n: nat): string
    requires i <= n <= |data|
    decreases n - i
  {
    if i == n then "" else [data[i] as char] + StringAt(data, i + 1, n)
  }

  const SEPARATOR := "\", \""

  function Lead(i: nat): string {
    if i > 0 then SEPARATOR else ""
  }

  /** One string with what leads up to it. */
  function Piece(data: seq<Byte>, i: nat, n: nat): string
    requires i <= n <= |data|
  {
    Lead(i) + StringAt(data, i, n)
  }

  /** The string from `i` up to `n`, and what follows. */
  function StringBodyFrom(data: seq<Byte>, i: nat, n: nat): string
    requires i <= n <= |data|
    decreases |data| - i, 0
  {
    if n == |data| then Piece(data, i, n) else Piece(data, i, n) + StringBody(data, n + 1)
  }

  /** The strings from position `i` on, each with what leads up to it. */
  function StringBody(data: seq<Byte>, i: nat): string
    requires i <= |data|
    decreases |data| - i, 1
  {
    if i == |data| then ""
    else
      var n := NulFrom(data, i);
      StringBodyFrom(data, i, n)
  }

  function CellText(v: nat): string {
    "0x" + Digits(v, 16)
  }

  function Gap(more: bool): string {
    if more then " " else ""
  }

  /** The cells from number `j` on. */
  function CellBody(data: seq<Byte>, j: nat): string
    requires j <= |data| / 4
    decreases |data| / 4 - j
  {
    if j == |data| / 4 then "" else CellWord(data, j) + CellBody(data, j + 1)
  }

  function CellWord(data: seq<Byte>, j: nat): string
    requires j < |data| / 4
  {
    CellText(CellAt(data, 4 * j)) + Gap(j < |data| / 4 - 1)
  }

  function ByteBody(data: seq<Byte>): string {
    if data == [] then "" else (TwoDigits(data[0]) + Gap(|data| > 1)) + ByteBody(data[1..])
  }

  function Print(data: seq<Byte>): string {
    if data == [] then ""
    else if Printable(data) then "\"" + StringBody(data, 0) + "\""
    else if |data| % 4 == 0 then "<" + (CellBody(data, 0) + ">")
    else "[" + (ByteBody(data) + "]")
  }

  predicate EndsNul(data: seq<Byte>) {
    data != [] ==> data[|data| - 1] == 0
  }

  lemma NulInside(data: seq<Byte>, i: nat)
    requires i < |data| && EndsNul(data)
    ensures NulFrom(data, i) < |data|
  {
    var last := |data| - 1;
    assert NulFrom(data, i) <= last;
  }

  lemma Regroup(whole: string, text: string, word: string, rest: string, more: string)
    requires whole == text + rest && rest == word + more
    ensures whole == text + word + more
  {
  }

  lemma BodyStep(data: seq<Byte>, i: nat, n: nat, whole: string, text: string, word: string)
    requires i < |data| && n == NulFrom(data, i) < |data|
    requires whole == text + StringBody(data, i) && word == Piece(data, i, n)
    ensures whole == text + word + StringBody(data, n + 1)
  {
    Regroup(whole, text, word, StringBodyFrom(data, i, n), StringBody(data, n + 1));
  }

  method PrintStrings(data: seq<Byte>) returns (text: string)
    requires data != [] && EndsNul(data)
    ensures text == StringBody(data, 0)
  {
    ghost var whole := StringBody(data, 0);
    text := "";
    var j := 0;
    while j < |data|
      invariant j <= |data| && whole == text + StringBody(data, j)
    {
      var n := NulFrom(data, j);
      NulInside(data, j);
      var word := Piece(data, j, n);
      BodyStep(data, j, n, whole, text, word);
      text := text + word;
      j := n + 1;
    }
  }

  lemma CellsStep(data: seq<Byte>, j: nat, whole: string, text: string)
    requires j < |data| / 4 && whole == text + CellBody(data, j)
    ensures whole == text + CellWord(data, j) + CellBody(data, j + 1)
  {
    Regroup(whole, text, CellWord(data, j), CellBody(data, j), CellBody(data, j + 1));
  }

  method PrintCells(data: seq<Byte>) returns (text: string)
    ensures text == CellBody(data, 0)
  {
    text := "";
    ghost var whole := CellBody(data, 0);
    for j := 0 to |data| / 4
      invariant whole == text + CellBody(data, j)
    {
      CellsStep(data, j, whole, text);
      text := text + CellWord(data, j);
    }
  }

  method PrintBytes(data: seq<Byte>) returns (text: string)
    ensures text == ByteBody(data)
  {
    text := "";
    ghost var whole := ByteBody(data);
    for j := 0 to |data|
      invariant whole == text + ByteBody(data[j..])
    {
      ghost var rest := data[j..];
      var word := TwoDigits(data[j]) + Gap(j < |data| - 1);
      Regroup(whole, text, word, ByteBody(rest), ByteBody(rest[1..]));
      assert rest[1..] == data[j + 1..];
      text := text + word;
    }
  }

  /** `print_data`. */
  method PrintData(data: seq<Byte>) returns (text: string)
    ensures text == Print(data)
  {
    if |data| == 0 { return ""; }
    var printable := IsPrintableString(data);
    if printable {
      text := PrintStrings(data);
      text := "\"" + text + "\"";
    } else if |data| % 4 == 0 {
      text := PrintCells(data);
      text := "<" + (text + ">");
    } else {
      text := PrintBytes(data);
      text := "[" + (text + "]");
    }
  }
}
