/** A printed property value, parsed again. */
module FdtRoundTrip {
  import opened Arithmetic
  import opened Numerals
  import opened Fdt

  // ----- arguments as the pieces of one text

  /** The arguments from position `i` of argument `k` on, put together again
      with the blanks that the command line was cut at. */
  function Joined(args: seq<string>, k: nat, i: nat): string
    requires k < |args| && i <= |args[k]|
    decreases |args| - k
  {
    args[k][i..] + Following(args, k)
  }

  function Following(args: seq<string>, k: nat): string
    requires k < |args|
    decreases |args| - k, 0
  {
    if k + 1 == |args| then "" else " " + Joined(args, k + 1, 0)
  }

  predicate NoBlank(s: string) {
    forall i :: 0 <= i < |s| ==> s[i] != ' '
  }

  /** A word without blanks at the front of the text lies within one argument. */
  lemma WordWithin(a: string, i: nat, follow: string, word: string, rest: string)
    requires i <= |a| && a[i..] + follow == word + rest && NoBlank(word) && (follow != "" ==> follow[0] == ' ')
    ensures Has(a, i, word) && a[i + |word|..] + follow == rest
  {
    var t := a[i..] + follow;
    var n := |a| - i;
    assert follow != "" ==> t[n] == follow[0];
    assert a[i..i + |word|] == t[..|word|] == word;
    assert a[i + |word|..] + follow == t[|word|..] == rest;
  }

  lemma JoinedWord(args: seq<string>, k: nat, i: nat, word: string, rest: string)
    requires k < |args| && i <= |args[k]| && Joined(args, k, i) == word + rest && NoBlank(word)
    ensures Has(args[k], i, word) && Joined(args, k, i + |word|) == rest
  {
    WordWithin(args[k], i, Following(args, k), word, rest);
  }

  /** A blank at the front of the text is one in the argument, or the cut after it. */
  lemma JoinedBlank(args: seq<string>, k: nat, i: nat, rest: string)
    requires k < |args| && i <= |args[k]| && Joined(args, k, i) == " " + rest
    ensures if i < |args[k]| then args[k][i] == ' ' && Joined(args, k, i + 1) == rest
            else k + 1 < |args| && Joined(args, k + 1, 0) == rest
  {
    var a, f := args[k], Following(args, k);
    var t := a[i..] + f;
    if i < |a| {
      assert t[0] == a[i] && t[1..] == a[i + 1..] + f;
    } else {
      assert t == f;
      assert f[1..] == rest;
    }
  }

  // ----- cells

  /** Nothing after a word in the text continues a numeral in its argument. */
  lemma WordEnds(args: seq<string>, k: nat, i: nat, rest: string)
    requires k < |args| && i <= |args[k]| && Joined(args, k, i) == rest
    ensures i < |args[k]| ==> rest != "" && args[k][i] == rest[0]
    ensures rest == "" || rest[0] != ' ' ==> i < |args[k]| || (rest == "" && k + 1 == |args|)
  {
    if i < |args[k]| { assert rest[0] == args[k][i]; }
  }

  lemma NoSkip(s: string, i: nat)
    requires i <= |s| && At(s, i) != ' '
    ensures SkipSpaces(s, i) == i
  {
  }

  /** The text that follows a number does not continue it. */
  predicate Follows(rest: string) {
    rest == "" || EndsNumber(rest[0])
  }

  /** One number at the front of the text. */
  lemma CellStep(args: seq<string>, k: nat, i: nat, acc: seq<Byte>, beyond: char, word: string, v: nat, rest: string)
    requires k < |args| && i <= |args[k]| && CNumeral(word, v)
    requires Joined(args, k, i) == word + rest && Follows(rest)
    ensures var p := i + |word|;
            p <= |args[k]| && Joined(args, k, p) == rest &&
            ParseCells(args, k, i, acc, beyond) == ParseCells(args, k, SkipSpaces(args[k], p), acc + BigEndian(v % WORD), beyond)
  {
    var p := i + |word|;
    CNumeralShape(word, v);
    JoinedWord(args, k, i, word, rest);
    WordEnds(args, k, p, rest);
    CNumeralRead(args[k], i, word, v);
    assert args[k][i] == args[k][i..p][0] == word[0];
  }

  /** After a cell, a blank or a cut leads to the next one. */
  lemma CellGap(args: seq<string>, k: nat, p: nat, acc: seq<Byte>, beyond: char, rest: string) returns (k': nat, i': nat)
    requires k < |args| && p <= |args[k]| && Joined(args, k, p) == " " + rest && rest != "" && rest[0] != ' '
    ensures k' < |args| && i' <= |args[k']| && Joined(args, k', i') == rest
    ensures ParseCells(args, k, SkipSpaces(args[k], p), acc, beyond) == ParseCells(args, k', i', acc, beyond)
  {
    JoinedBlank(args, k, p, rest);
    if p < |args[k]| {
      k', i' := k, p + 1;
      JoinedWord(args, k, p + 1, [rest[0]], rest[1..]);
      NoSkip(args[k], p + 1);
    } else {
      k', i' := k + 1, 0;
      NoSkip(args[k], p);
    }
  }

  /** A word that names the bytes of a cell. */
  ghost predicate IsCell(cell: seq<Byte>, word: string) {
    exists v: nat :: cell == BigEndian(v % WORD) && CNumeral(word, v)
  }

  function Spaced(words: seq<string>): string {
    if words == [] then "" else if |words| == 1 then words[0] else words[0] + (" " + Spaced(words[1..]))
  }

  function Flat(cells: seq<seq<Byte>>): seq<Byte> {
    if cells == [] then [] else cells[0] + Flat(cells[1..])
  }

  ghost predicate AreCells(cells: seq<seq<Byte>>, words: seq<string>) {
    |cells| == |words| && words != [] && forall j :: 0 <= j < |words| ==> IsCell(cells[j], words[j])
  }

  lemma FirstCell(data: seq<Byte>, j: nat, rest: seq<Byte>) returns (cell: seq<Byte>, word: string)
    requires j < |data| / 4 && rest == data[4 * j + 4..]
    ensures IsCell(cell, word) && cell + rest == data[4 * j..] && CellWord(data, j) == word + Gap(j < |data| / 4 - 1)
  {
    var i := 4 * j;
    var v := CellAt(data, i);
    cell, word := data[i..i + 4], CellText(v);
    assert cell + rest == data[i..];
    assert IsCell(cell, word) by {
      BigEndianOfCell(data, i);
      HexIsCNumeral(v);
      CellNamed(cell, word, v);
    }
  }

  lemma LastBody(data: seq<Byte>, j: nat, word: string)
    requires j + 1 == |data| / 4 && CellWord(data, j) == word + Gap(false)
    ensures CellBody(data, j) == word
  {
    assert CellBody(data, j + 1) == "" && (word + "") + "" == word;
  }

  /** A value printed as cells, word by word. */
  lemma {:induction false} CellWords(data: seq<Byte>, j: nat, rest: seq<Byte>) returns (cells: seq<seq<Byte>>, words: seq<string>)
    requires j < |data| / 4 && |data| % 4 == 0 && rest == data[4 * j..]
    ensures AreCells(cells, words) && Flat(cells) == rest && Spaced(words) == CellBody(data, j)
    decreases |data| / 4 - j
  {
    var more := data[4 * j + 4..];
    var cell, word := FirstCell(data, j, more);
    if j + 1 < |data| / 4 {
      var cells', words' := CellWords(data, j + 1, more);
      ConsCells(cell, word, cells', words');
      cells, words := [cell] + cells', [word] + words';
    } else {
      OneCell([cell]);
      LastBody(data, j, word);
      cells, words := [cell], [word];
    }
  }

  lemma ConsCells(cell: seq<Byte>, word: string, cells: seq<seq<Byte>>, words: seq<string>)
    requires IsCell(cell, word) && AreCells(cells, words)
    ensures AreCells([cell] + cells, [word] + words) && Flat([cell] + cells) == cell + Flat(cells)
    ensures Spaced([word] + words) == (word + Gap(true)) + Spaced(words)
  {
    var cs, ws := [cell] + cells, [word] + words;
    assert cs[1..] == cells && ws[1..] == words;
  }

  lemma LastCell(args: seq<string>, k: nat, i: nat, acc: seq<Byte>, cell: seq<Byte>, word: string, tail: string, beyond: char)
      returns (i': nat)
    requires k < |args| && i <= |args[k]| && IsCell(cell, word) && Joined(args, k, i) == word + tail && Unspaced(tail)
    ensures i' <= |args[k]| && Joined(args, k, i') == tail
    ensures ParseCells(args, k, i, acc, beyond) == ParseCells(args, k, i', acc + cell, beyond)
  {
    var v: nat :| cell == BigEndian(v % WORD) && CNumeral(word, v);
    CellStep(args, k, i, acc, beyond, word, v, tail);
    i' := i + |word|;
    WordEnds(args, k, i', tail);
    NoSkip(args[k], i');
  }

  /** What may come behind the last number. */
  predicate Unspaced(tail: string) {
    Follows(tail) && (tail != "" ==> tail[0] != ' ')
  }

  lemma NextCell(args: seq<string>, k: nat, i: nat, acc: seq<Byte>, cell: seq<Byte>, word: string, rest: string, beyond: char)
      returns (k': nat, i': nat)
    requires k < |args| && i <= |args[k]| && IsCell(cell, word)
    requires Joined(args, k, i) == word + (" " + rest) && rest != "" && rest[0] != ' '
    ensures k' < |args| && i' <= |args[k']| && Joined(args, k', i') == rest
    ensures ParseCells(args, k, i, acc, beyond) == ParseCells(args, k', i', acc + cell, beyond)
  {
    var v: nat :| cell == BigEndian(v % WORD) && CNumeral(word, v);
    CellStep(args, k, i, acc, beyond, word, v, " " + rest);
    k', i' := CellGap(args, k, i + |word|, acc + cell, beyond, rest);
  }

  lemma OneCell(cells: seq<seq<Byte>>)
    requires |cells| == 1
    ensures Flat(cells) == cells[0]
  {
    assert Flat(cells[1..]) == [];
  }

  lemma MoreCells(acc: seq<Byte>, cells: seq<seq<Byte>>)
    requires cells != []
    ensures acc + Flat(cells) == acc + cells[0] + Flat(cells[1..])
  {
  }

  lemma MoreWords(words: seq<string>, tail: string) returns (rest: string)
    requires |words| > 1 && words[1] != "" && words[1][0] != ' '
    ensures rest == Spaced(words[1..]) + tail
    ensures Spaced(words) + tail == words[0] + (" " + rest) && rest != "" && rest[0] != ' '
  {
    rest := Spaced(words[1..]) + tail;
    assert Spaced(words[1..])[0] == words[1][0];
  }

  lemma CellWordStart(cell: seq<Byte>, word: string)
    requires IsCell(cell, word)
    ensures word != "" && word[0] != ' '
  {
    var v: nat :| cell == BigEndian(v % WORD) && CNumeral(word, v);
    CNumeralShape(word, v);
  }

  /** Numbers in any C notation are taken one after the other, wherever the text
      was cut at its blanks. */
  lemma {:induction false} CellsTaken(args: seq<string>, k: nat, i: nat, acc: seq<Byte>, cells: seq<seq<Byte>>, words: seq<string>,
                                      tail: string, beyond: char) returns (k': nat, i': nat)
    requires k < |args| && i <= |args[k]| && AreCells(cells, words) && Unspaced(tail)
    requires Joined(args, k, i) == Spaced(words) + tail
    ensures k' < |args| && i' <= |args[k']| && Joined(args, k', i') == tail
    ensures ParseCells(args, k, i, acc, beyond) == ParseCells(args, k', i', acc + Flat(cells), beyond)
    decreases |words|
  {
    var cell, word := cells[0], words[0];
    assert IsCell(cell, word);
    if |words| == 1 {
      k' := k;
      i' := LastCell(args, k, i, acc, cell, word, tail, beyond);
      OneCell(cells);
    } else {
      assert IsCell(cells[1], words[1]);
      CellWordStart(cells[1], words[1]);
      var rest := MoreWords(words, tail);
      k', i' := NextCell(args, k, i, acc, cell, word, rest, beyond);
      MoreCells(acc, cells);
      k', i' := CellsTaken(args, k', i', acc + cell, cells[1..], words[1..], tail, beyond);
    }
  }

  /** Such numbers and the closing bracket parse to their big-endian bytes. */
  lemma CellsParse(args: seq<string>, k: nat, i: nat, acc: seq<Byte>, cells: seq<seq<Byte>>, words: seq<string>, beyond: char)
    requires k < |args| && i <= |args[k]| && AreCells(cells, words)
    requires Joined(args, k, i) == Spaced(words) + ">"
    ensures ParseCells(args, k, i, acc, beyond) == Value(acc + Flat(cells))
  {
    var k', i' := CellsTaken(args, k, i, acc, cells, words, ">", beyond);
    WordEnds(args, k', i', ">");
  }

  /** Any other character behind them is an error, and so is a missing bracket,
      unless the character behind the last argument happens to be one. */
  lemma CellsMalformed(args: seq<string>, k: nat, i: nat, acc: seq<Byte>, cells: seq<seq<Byte>>, words: seq<string>, tail: string, beyond: char)
    requires k < |args| && i <= |args[k]| && AreCells(cells, words)
    requires Joined(args, k, i) == Spaced(words) + tail && Unspaced(tail) && (tail != "" ==> tail[0] != '>' && tail[0] != '\0')
    ensures tail != "" || beyond != '>' ==> ParseCells(args, k, i, acc, beyond) == Malformed
    ensures tail == "" && beyond == '>' ==> ParseCells(args, k, i, acc, beyond) == Value(acc + Flat(cells))
  {
    var k', i' := CellsTaken(args, k, i, acc, cells, words, tail, beyond);
    WordEnds(args, k', i', tail);
  }

  // ----- bytes

  /** Hexadecimal digits that name a byte by their low bits. */
  predicate IsByte(b: Byte, word: string) {
    word != "" && IsNumeral(word, 16) && b == NumeralValue(word, 16) % 256
  }

  lemma LowByte(v: nat)
    ensures v % WORD % 256 == v % 256
  {
    var q := v / WORD;
    assert v == q * WORD + v % WORD;
    assert q * WORD == (q * 0x100_0000) * 256;
  }

  lemma ByteWordShape(b: Byte, word: string)
    requires IsByte(b, word)
    ensures NoBlank(word) && DigitValue(word[0]) >= 0
  {
  }

  lemma ByteRead(s: string, i: nat, b: Byte, word: string)
    requires IsByte(b, word) && Has(s, i, word) && (i + |word| < |s| ==> EndsNumber(s[i + |word|]))
    ensures StrToUl(s, i, 16).0 % 256 == b && StrToUl(s, i, 16).1 == i + |word| && s[i] == word[0]
  {
    assert s[i] == s[i..i + |word|][0];
    if |word| > 1 { assert s[i + 1] == s[i..i + |word|][1] == word[1]; }
    NumeralRead(s, i, word, 16);
    LowByte(NumeralValue(word, 16));
  }

  lemma ByteStep(args: seq<string>, k: nat, i: nat, acc: seq<Byte>, beyond: char, b: Byte, word: string, rest: string)
    requires k < |args| && i <= |args[k]| && IsByte(b, word)
    requires Joined(args, k, i) == word + rest && Follows(rest)
    ensures i + |word| <= |args[k]| && Joined(args, k, i + |word|) == rest
    ensures ParseStream(args, k, i, acc, beyond) == ParseStream(args, k, i + |word|, acc + [b], beyond)
  {
    ByteWordShape(b, word);
    JoinedWord(args, k, i, word, rest);
    WordEnds(args, k, i + |word|, rest);
    ByteRead(args[k], i, b, word);
    NoSkip(args[k], i);
  }

  lemma ByteGap(args: seq<string>, k: nat, p: nat, acc: seq<Byte>, beyond: char, rest: string) returns (k': nat, i': nat)
    requires k < |args| && p <= |args[k]| && Joined(args, k, p) == " " + rest && rest != "" && DigitValue(rest[0]) >= 0
    ensures k' < |args| && i' <= |args[k']| && Joined(args, k', i') == rest
    ensures ParseStream(args, k, p, acc, beyond) == ParseStream(args, k', i', acc, beyond)
  {
    JoinedBlank(args, k, p, rest);
    if p < |args[k]| {
      k', i' := k, p + 1;
      JoinedWord(args, k, p + 1, [rest[0]], rest[1..]);
      assert args[k][p + 1] == args[k][p + 1..p + 2][0] == rest[0];
      NoSkip(args[k], p + 1);
    } else {
      k', i' := k + 1, 0;
      NoSkip(args[k], p);
    }
  }

  ghost predicate AreBytes(data: seq<Byte>, words: seq<string>) {
    |data| == |words| && words != [] && forall j :: 0 <= j < |words| ==> IsByte(data[j], words[j])
  }

  /** Hexadecimal bytes are taken one after the other, wherever the text was cut at
      its blanks. */
  lemma {:induction false} BytesTaken(args: seq<string>, k: nat, i: nat, acc: seq<Byte>, data: seq<Byte>, words: seq<string>,
                                      tail: string, beyond: char) returns (k': nat, i': nat)
    requires k < |args| && i <= |args[k]| && AreBytes(data, words) && Unspaced(tail)
    requires Joined(args, k, i) == Spaced(words) + tail
    ensures k' < |args| && i' <= |args[k']| && Joined(args, k', i') == tail
    ensures ParseStream(args, k, i, acc, beyond) == ParseStream(args, k', i', acc + data, beyond)
    decreases |words|
  {
    var b, word := data[0], words[0];
    assert acc + data == acc + [b] + data[1..];
    assert IsByte(b, word);
    if |words| == 1 {
      assert data == [b];
      ByteStep(args, k, i, acc, beyond, b, word, tail);
      k', i' := k, i + |word|;
    } else {
      k', i' := NextByte(args, k, i, acc, b, words, data[1], tail, beyond);
      k', i' := BytesTaken(args, k', i', acc + [b], data[1..], words[1..], tail, beyond);
    }
  }

  lemma NextByte(args: seq<string>, k: nat, i: nat, acc: seq<Byte>, b: Byte, words: seq<string>, next: Byte, tail: string, beyond: char)
      returns (k': nat, i': nat)
    requires k < |args| && i <= |args[k]| && |words| > 1 && IsByte(b, words[0]) && IsByte(next, words[1])
    requires Joined(args, k, i) == Spaced(words) + tail
    ensures k' < |args| && i' <= |args[k']| && Joined(args, k', i') == Spaced(words[1..]) + tail
    ensures ParseStream(args, k, i, acc, beyond) == ParseStream(args, k', i', acc + [b], beyond)
  {
    ByteWordShape(next, words[1]);
    var rest := MoreWords(words, tail);
    assert rest[0] == words[1][0] by { assert Spaced(words[1..])[0] == words[1][0]; }
    ByteStep(args, k, i, acc, beyond, b, words[0], " " + rest);
    k', i' := ByteGap(args, k, i + |words[0]|, acc + [b], beyond, rest);
  }

  /** Such bytes and the closing bracket parse to the bytes. */
  lemma StreamParse(args: seq<string>, k: nat, i: nat, acc: seq<Byte>, data: seq<Byte>, words: seq<string>, beyond: char)
    requires k < |args| && i <= |args[k]| && AreBytes(data, words)
    requires Joined(args, k, i) == Spaced(words) + "]"
    ensures ParseStream(args, k, i, acc, beyond) == Value(acc + data)
  {
    var k', i' := BytesTaken(args, k, i, acc, data, words, "]", beyond);
    WordEnds(args, k', i', "]");
  }

  /** Any other character behind them is an error, and so is a missing bracket,
      unless the character behind the last argument happens to be one. */
  lemma StreamMalformed(args: seq<string>, k: nat, i: nat, acc: seq<Byte>, data: seq<Byte>, words: seq<string>, tail: string, beyond: char)
    requires k < |args| && i <= |args[k]| && AreBytes(data, words)
    requires Joined(args, k, i) == Spaced(words) + tail && Unspaced(tail) && (tail != "" ==> tail[0] != ']')
    ensures tail != "" || beyond != ']' ==> ParseStream(args, k, i, acc, beyond) == Malformed
    ensures tail == "" && beyond == ']' ==> ParseStream(args, k, i, acc, beyond) == Value(acc + data)
  {
    var k', i' := BytesTaken(args, k, i, acc, data, words, tail, beyond);
    WordEnds(args, k', i', tail);
    NoSkip(args[k'], i');
  }

  lemma TwoDigitsByte(b: Byte)
    ensures IsByte(b, TwoDigits(b))
  {
    var t := TwoDigits(b);
    assert t[..1] == [t[0]] && t[..1][..0] == "";
    assert NumeralValue(t[..1], 16) == b / 16;
  }

  /** A value printed as bytes, word by word. */
  lemma {:induction false} ByteWords(data: seq<Byte>) returns (words: seq<string>)
    requires data != []
    ensures AreBytes(data, words) && Spaced(words) == ByteBody(data)
    decreases |data|
  {
    var b, rest := data[0], data[1..];
    TwoDigitsByte(b);
    words := [TwoDigits(b)];
    if rest == [] {
      assert (TwoDigits(b) + "") + "" == TwoDigits(b);
    } else {
      var more := ByteWords(rest);
      words := words + more;
      assert words[1..] == more;
      ConcatAssoc(TwoDigits(b), " ", ByteBody(rest));
    }
  }

  /** Every value that is printed as cells or bytes is restored, however the
      printed text is cut into arguments at its blanks. */
  lemma PrintedRoundTrip(data: seq<Byte>, args: seq<string>, beyond: char)
    requires data != [] && !Printable(data) && args != [] && Joined(args, 0, 0) == Print(data)
    ensures Parse(args, beyond) == Value(data)
  {
    if |data| % 4 == 0 {
      CellsRoundTrip(data, CellBody(data, 0), args, beyond);
    } else {
      StreamRoundTrip(data, ByteBody(data), args, beyond);
    }
  }

  lemma CellsRoundTrip(data: seq<Byte>, body: string, args: seq<string>, beyond: char)
    requires data != [] && |data| % 4 == 0 && body == CellBody(data, 0)
    requires args != [] && Joined(args, 0, 0) == "<" + (body + ">")
    ensures Parse(args, beyond) == Value(data)
  {
    JoinedWord(args, 0, 0, "<", body + ">");
    assert args[0][0] == args[0][0..1][0];
    var cells, words := CellWords(data, 0, data);
    CellsParse(args, 0, 1, [], cells, words, beyond);
    assert [] + data == data;
  }

  lemma StreamRoundTrip(data: seq<Byte>, body: string, args: seq<string>, beyond: char)
    requires data != [] && body == ByteBody(data)
    requires args != [] && Joined(args, 0, 0) == "[" + (body + "]")
    ensures Parse(args, beyond) == Value(data)
  {
    JoinedWord(args, 0, 0, "[", body + "]");
    assert args[0][0] == args[0][0..1][0];
    var words := ByteWords(data);
    StreamParse(args, 0, 1, [], data, words, beyond);
    assert [] + data == data;
  }

  // ----- what a person types

  /** Numbers in C notation between angle brackets are big-endian cells. */
  lemma WrittenCells(args: seq<string>, cells: seq<seq<Byte>>, words: seq<string>, body: string, beyond: char)
    requires AreCells(cells, words) && body == Spaced(words)
    requires args != [] && Joined(args, 0, 0) == "<" + (body + ">")
    ensures Parse(args, beyond) == Value(Flat(cells))
  {
    JoinedWord(args, 0, 0, "<", body + ">");
    assert args[0][0] == args[0][0..1][0];
    CellsParse(args, 0, 1, [], cells, words, beyond);
    assert [] + Flat(cells) == Flat(cells);
  }

  /** Hexadecimal digits between square brackets are bytes. */
  lemma WrittenBytes(args: seq<string>, data: seq<Byte>, words: seq<string>, body: string, beyond: char)
    requires AreBytes(data, words) && body == Spaced(words)
    requires args != [] && Joined(args, 0, 0) == "[" + (body + "]")
    ensures Parse(args, beyond) == Value(data)
  {
    JoinedWord(args, 0, 0, "[", body + "]");
    assert args[0][0] == args[0][0..1][0];
    StreamParse(args, 0, 1, [], data, words, beyond);
    assert [] + data == data;
  }

  /** "100" is decimal, "010" octal and "0x12345678" hexadecimal. */
  lemma DecimalCell(word: string)
    requires |word| == 3 && word[0] == '1' && word[1] == '0' && word[2] == '0'
    ensures IsCell([0, 0, 0, 100], word)
  {
    NumeralOfThree(word, 10);
    CellNamed([0, 0, 0, 100], word, 100);
  }

  lemma OctalCell(word: string)
    requires |word| == 3 && word[0] == '0' && word[1] == '1' && word[2] == '0'
    ensures IsCell([0, 0, 0, 8], word)
  {
    NumeralOfTwo(word[1..], 8);
    CellNamed([0, 0, 0, 8], word, 8);
  }

  lemma HexCell(word: string)
    requires |word| == 10 && word[..2] == "0x" && forall i :: 0 <= i < 8 ==> word[2..][i] as int == '1' as int + i
    ensures IsCell([0x12, 0x34, 0x56, 0x78], word)
  {
    var t := word[2..];
    assert IsNumeral(t, 16) && NumeralValue(t, 16) == 0x1234_5678 by {
      assert forall i :: 0 <= i < 8 ==> DigitValue(t[i]) == i + 1;
      EightDigits(t);
    }
    HexBytes();
    CellNamed([0x12, 0x34, 0x56, 0x78], word, 0x1234_5678);
  }

  lemma HexBytes()
    ensures BigEndian(0x1234_5678) == [0x12, 0x34, 0x56, 0x78]
  {
  }

  lemma CellNamed(cell: seq<Byte>, word: string, v: nat)
    requires cell == BigEndian(v) && v < WORD && CNumeral(word, v)
    ensures IsCell(cell, word)
  {
    assert v % WORD == v;
  }

  lemma NumeralOfTwo(t: string, base: nat)
    requires |t| == 2 && IsNumeral(t, base)
    ensures NumeralValue(t, base) == DigitValue(t[0]) * base + DigitValue(t[1])
  {
    NumeralStep(t, base, 2);
    NumeralStep(t, base, 1);
    assert t[..2] == t && t[..0] == "";
  }

  lemma NumeralOfThree(t: string, base: nat)
    requires |t| == 3 && IsNumeral(t, base)
    ensures NumeralValue(t, base) == (DigitValue(t[0]) * base + DigitValue(t[1])) * base + DigitValue(t[2])
  {
    NumeralStep(t, base, 3);
    NumeralOfTwo(t[..2], base);
    assert t[..3] == t;
  }

  lemma EightDigits(t: string)
    requires |t| == 8 && IsNumeral(t, 16) && forall i :: 0 <= i < 8 ==> DigitValue(t[i]) == i + 1
    ensures NumeralValue(t, 16) == 0x1234_5678
  {
    var values := [0, 1, 0x12, 0x123, 0x1234, 0x1_2345, 0x12_3456, 0x123_4567, 0x1234_5678];
    for n := 0 to 8
      invariant NumeralValue(t[..n], 16) == values[n]
    {
      NumeralStep(t, 16, n + 1);
    }
    assert t[..8] == t;
  }

  // ----- the form that is printed

  /** Strings in quotes, cells in angle brackets when the length is a multiple of
      four, bytes in square brackets otherwise. */
  lemma FormChosen(data: seq<Byte>)
    requires data != []
    ensures var t := Print(data);
            && (t[0] == '"' <==> Printable(data))
            && (t[0] == '<' <==> !Printable(data) && |data| % 4 == 0)
            && (t[0] == '[' <==> !Printable(data) && |data| % 4 != 0)
            && t[|t| - 1] == if Printable(data) then '"' else if |data| % 4 == 0 then '>' else ']'
  {
  }

  /** Each string of a value in quotes, with a comma and a blank between them. */
  function Quoted(strings: seq<string>): string {
    if strings == [] then "" else if |strings| == 1 then "\"" + strings[0] + "\"" else "\"" + strings[0] + ("\"" + ", ") + Quoted(strings[1..])
  }

  /** A value of strings is printed so. */
  lemma StringsPrinted(data: seq<Byte>)
    requires Printable(data)
    ensures Print(data) == Quoted(Split(data, 0))
  {
    var x := QuotedBody(data, 0);
    assert StringBody(data, 0) == "" + x == x;
  }

  lemma {:induction false} QuotedBody(data: seq<Byte>, i: nat) returns (x: string)
    requires i < |data| && EndsNul(data)
    ensures StringBody(data, i) == Lead(i) + x && Quoted(Split(data, i)) == "\"" + x + "\""
    decreases |data| - i
  {
    NulInside(data, i);
    var n := NulFrom(data, i);
    var s, rest, body := StringAt(data, i, n), Split(data, n + 1), StringBody(data, n + 1);
    var y := "";
    if n + 1 < |data| {
      y := QuotedBody(data, n + 1);
    }
    SplitStep(data, i, n);
    x := Extended(Lead(i), s, rest, body, y);
    BodyParts(data, i, n);
  }

  /** One string in front of those of a body, which are `rest` and read `y`. */
  lemma Extended(lead: string, s: string, rest: seq<string>, body: string, y: string) returns (x: string)
    requires if rest == [] then body == "" else body == SEPARATOR + y && Quoted(rest) == "\"" + y + "\""
    ensures lead + s + body == lead + x && Quoted([s] + rest) == "\"" + x + "\""
  {
    if rest == [] {
      x := s;
      QuotedOne(s);
    } else {
      x := s + (SEPARATOR + y);
      ConcatAssoc(lead, s, SEPARATOR + y);
      QuotedMore(s, rest, y);
    }
  }

  lemma BodyParts(data: seq<Byte>, i: nat, n: nat)
    requires i < |data| && n == NulFrom(data, i) < |data|
    ensures StringBody(data, i) == Lead(i) + StringAt(data, i, n) + StringBody(data, n + 1)
  {
    var piece, rest := Piece(data, i, n), StringBody(data, n + 1);
    assert StringBodyFrom(data, i, n) == piece + rest;
  }

  lemma SplitStep(data: seq<Byte>, i: nat, n: nat)
    requires i < |data| && n == NulFrom(data, i) < |data|
    ensures Split(data, i) == [StringAt(data, i, n)] + Split(data, n + 1)
    ensures n + 1 < |data| <==> Split(data, n + 1) != []
    ensures Lead(n + 1) == SEPARATOR && (n + 1 == |data| ==> StringBody(data, n + 1) == "")
  {
    var rest := Split(data, n + 1);
    assert Split(data, i) == [StringAt(data, i, n)] + rest;
  }

  lemma QuotedOne(s: string)
    ensures Quoted([s] + []) == "\"" + s + "\"" && s + "" == s
  {
    assert [s] + [] == [s];
  }

  lemma QuotedMore(s: string, rest: seq<string>, y: string)
    requires rest != [] && Quoted(rest) == "\"" + y + "\""
    ensures Quoted([s] + rest) == "\"" + (s + (SEPARATOR + y)) + "\""
  {
    assert ([s] + rest)[1..] == rest;
    JoinQuotes("\"", s, y);
  }

  lemma JoinQuotes(q: string, s: string, y: string)
    requires |q| == 1
    ensures q + s + (q + ", ") + (q + y + q) == q + (s + ((q + ", " + q) + y)) + q
  {
  }
}
