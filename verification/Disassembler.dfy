/** The disassembler's text of an instruction, and assembling that text again. */
module Disassembler {
  import opened Arithmetic
  import opened Numerals
  import opened Bits
  import opened AsmText
  import opened Assembler
  import opened AssembleWord

  // ----- printing

  /** Operands after which `print_operands` closes an open parenthesis. */
  predicate Closes(kind: Kind) {
    kind.Register? || kind.Offset? || kind.Plain?
  }

  function OpenAfter(kind: Kind, open: bool): bool {
    if open then !Closes(kind) else kind.Offset?
  }

  function Parenthesis(kind: Kind, open: bool): string {
    if open && Closes(kind) then ")" else if !open && kind.Offset? then "(" else ""
  }

  /** An operand with its parenthesis: an offset opens one, which the next
      register or number closes. */
  function ItemText(sprs: seq<SprInfo>, memaddr: nat, op: Opcode, o: Operand, w: nat, open: bool): string
    requires 0 < o.bits
  {
    PrintOperand(sprs, memaddr, op, o, ValueOf(w, o)) + Parenthesis(o.kind, open)
  }

  function Comma(j: nat, open: bool): string {
    if j > 0 && !open then "," else ""
  }

  predicate Sized(op: Opcode) {
    forall i :: 0 <= i < |op.operands| ==> 0 < op.operands[i].bits
  }

  /** The operands from number `j` on, with a parenthesis open or not. */
  function PrintFrom(sprs: seq<SprInfo>, memaddr: nat, op: Opcode, w: nat, j: nat, open: bool): string
    requires j <= |op.operands| && Sized(op)
    decreases |op.operands| - j
  {
    if j == |op.operands| then ""
    else
      var o := op.operands[j];
      if o.kind.Silent? then PrintFrom(sprs, memaddr, op, w, j + 1, open)
      else (Comma(j, open) + ItemText(sprs, memaddr, op, o, w, open)) + PrintFrom(sprs, memaddr, op, w, j + 1, OpenAfter(o.kind, open))
  }

  /** `print_operands`. */
  method PrintOperands(sprs: seq<SprInfo>, memaddr: nat, op: Opcode, w: nat) returns (data: string)
    requires WellFormed(op)
    ensures data == PrintFrom(sprs, memaddr, op, w, 0, false)
  {
    data := "";
    var openParens := false;
    ghost var whole := PrintFrom(sprs, memaddr, op, w, 0, false);
    for j := 0 to |op.operands|
      invariant whole == data + PrintFrom(sprs, memaddr, op, w, j, openParens)
    {
      var o := op.operands[j];
      if o.kind.Silent? { continue; }
      var item := Comma(j, openParens) + ItemText(sprs, memaddr, op, o, w, openParens);
      ConcatAssoc(data, item, PrintFrom(sprs, memaddr, op, w, j + 1, OpenAfter(o.kind, openParens)));
      data := data + item;
      openParens := OpenAfter(o.kind, openParens);
    }
  }

  // ----- the words of what is printed

  /** The words that the operands from `j` on make, when `word` has been begun. */
  function Groups(sprs: seq<SprInfo>, memaddr: nat, op: Opcode, w: nat, j: nat, open: bool, word: string): seq<string>
    requires j <= |op.operands| && Sized(op)
    decreases |op.operands| - j
  {
    if j == |op.operands| then [word]
    else
      var o := op.operands[j];
      if o.kind.Silent? then Groups(sprs, memaddr, op, w, j + 1, open, word)
      else
        var item, open' := ItemText(sprs, memaddr, op, o, w, open), OpenAfter(o.kind, open);
        if open then Groups(sprs, memaddr, op, w, j + 1, open', word + item)
        else [word] + Groups(sprs, memaddr, op, w, j + 1, open', item)
  }

  lemma {:induction false} DigitsSolid(v: nat, base: nat)
    requires 2 <= base <= 16
    ensures Solid(Digits(v, base))
    decreases v
  {
    if v >= base {
      DivStep(v, base);
      DigitsSolid(v / base, base);
    }
  }

  lemma {:induction false} SprTextSolid(sprs: seq<SprInfo>, n: nat)
    requires Capitals(sprs)
    ensures Solid(SprText(sprs, n)) && SprText(sprs, n) != ""
    decreases |sprs|
  {
    if sprs == [] { DigitsSolid(n, 10); } else { SprTextSolid(sprs[1..], n); }
  }

  lemma SolidConcat(s: string, t: string)
    requires Solid(s) && Solid(t)
    ensures Solid(s + t)
  {
  }

  lemma OperandSolid(sprs: seq<SprInfo>, memaddr: nat, op: Opcode, o: Operand, f: nat)
    requires 0 < o.bits && Capitals(sprs)
    ensures var s := PrintOperand(sprs, memaddr, op, o, f); Solid(s) && s != ""
  {
    match o.kind
    case Address =>
      DigitsSolid((ShowAddress(f, o.bits) + Base(op, memaddr)) % WORD, 16);
    case Register => DigitsSolid(f, 10);
    case Spr => SprTextSolid(sprs, HalfSwap(f));
    case Tbr =>
    case _ => DigitsSolid(f % 0x1_0000, 16);
  }

  lemma ItemSolid(sprs: seq<SprInfo>, memaddr: nat, op: Opcode, o: Operand, w: nat, open: bool)
    requires 0 < o.bits && Capitals(sprs)
    ensures var s := ItemText(sprs, memaddr, op, o, w, open); Solid(s) && s != ""
  {
    OperandSolid(sprs, memaddr, op, o, ValueOf(w, o));
    SolidConcat(PrintOperand(sprs, memaddr, op, o, ValueOf(w, o)), Parenthesis(o.kind, open));
  }

  /** The assembler cuts the printed operands at the commas. */
  lemma {:induction false} WordsOfPrint(sprs: seq<SprInfo>, memaddr: nat, op: Opcode, w: nat, j: nat, open: bool, word: string)
    requires 0 < j <= |op.operands| && Sized(op) && Capitals(sprs) && Solid(word) && word != ""
    ensures Words(word + PrintFrom(sprs, memaddr, op, w, j, open)) == Groups(sprs, memaddr, op, w, j, open, word)
    decreases |op.operands| - j
  {
    if j == |op.operands| {
      assert word + "" == word;
      WordsOfOne(word);
    } else if op.operands[j].kind.Silent? {
      WordsOfPrint(sprs, memaddr, op, w, j + 1, open, word);
    } else {
      var o := op.operands[j];
      var item, open' := ItemText(sprs, memaddr, op, o, w, open), OpenAfter(o.kind, open);
      var rest, next := PrintFrom(sprs, memaddr, op, w, j + 1, open'), if open then word + item else item;
      assert Solid(next) && next != "" by {
        ItemSolid(sprs, memaddr, op, o, w, open);
        SolidConcat(word, item);
      }
      assert Words(next + rest) == Groups(sprs, memaddr, op, w, j + 1, open', next) by {
        WordsOfPrint(sprs, memaddr, op, w, j + 1, open', next);
      }
      NextItem(word, item, rest, open);
    }
  }

  lemma NextItem(word: string, item: string, rest: string, open: bool)
    requires Solid(word) && word != ""
    ensures open ==> word + (("" + item) + rest) == (word + item) + rest
    ensures !open ==> Words(word + (("," + item) + rest)) == [word] + Words(item + rest)
  {
    if open {
      assert "" + item == item;
      ConcatAssoc(word, item, rest);
    } else {
      ConcatAssoc(",", item, rest);
      WordsComma(word, item + rest);
    }
  }

  // ----- operands that run together

  /** Operands from `j` on that are not silent. */
  function Spoken(op: Opcode, j: nat): nat
    requires j <= |op.operands|
    decreases |op.operands| - j
  {
    if j == |op.operands| then 0 else Spoken(op, j + 1) + if op.operands[j].kind.Silent? then 0 else 1
  }

  /** Some operand from `j` on is printed into the word before it. */
  predicate Joins(op: Opcode, j: nat, open: bool)
    requires j <= |op.operands|
    decreases |op.operands| - j
  {
    j < |op.operands| &&
    var kind := op.operands[j].kind;
    if kind.Silent? then Joins(op, j + 1, open) else open || Joins(op, j + 1, OpenAfter(kind, open))
  }

  lemma {:induction false} GroupsCount(sprs: seq<SprInfo>, memaddr: nat, op: Opcode, w: nat, j: nat, open: bool, word: string)
    requires j <= |op.operands| && Sized(op)
    ensures |Groups(sprs, memaddr, op, w, j, open, word)| <= Spoken(op, j) + if Joins(op, j, open) then 0 else 1
    decreases |op.operands| - j
  {
    if j < |op.operands| {
      var o := op.operands[j];
      if o.kind.Silent? {
        GroupsCount(sprs, memaddr, op, w, j + 1, open, word);
      } else {
        var item := ItemText(sprs, memaddr, op, o, w, open);
        GroupsCount(sprs, memaddr, op, w, j + 1, OpenAfter(o.kind, open), if open then word + item else item);
      }
    }
  }

  /** With fewer words than operands the assembler fails. */
  lemma {:induction false} TooFewWords(sprs: seq<SprInfo>, memaddr: nat, op: Opcode, j: nat, words: seq<string>)
    requires j <= |op.operands| && Sized(op) && |words| < Spoken(op, j)
    ensures ReadValues(sprs, memaddr, op, j, words).Err?
    decreases |op.operands| - j
  {
    var o := op.operands[j];
    if o.kind.Silent? {
      TooFewWords(sprs, memaddr, op, j + 1, words);
    } else if words != [] {
      TooFewWords(sprs, memaddr, op, j + 1, words[1..]);
    }
  }

  /** The operands are printed one word each: none is printed after an offset,
      and none after a silent first one, which would leave a leading comma. */
  predicate Detached(op: Opcode) {
    && (forall a, b :: 0 <= a < b < |op.operands| && op.operands[a].kind.Offset? ==> op.operands[b].kind.Silent?)
    && (op.operands != [] && op.operands[0].kind.Silent? ==> AllSilent(op, 0))
  }

  predicate AllSilent(op: Opcode, j: nat) {
    forall i :: j <= i < |op.operands| ==> op.operands[i].kind.Silent?
  }

  predicate OffsetsLast(op: Opcode, j: nat) {
    forall a, b :: j <= a < b < |op.operands| && op.operands[a].kind.Offset? ==> op.operands[b].kind.Silent?
  }

  lemma {:induction false} SpokenZero(op: Opcode, j: nat)
    requires j <= |op.operands|
    ensures Spoken(op, j) == 0 <==> AllSilent(op, j)
    decreases |op.operands| - j
  {
    if j < |op.operands| { SpokenZero(op, j + 1); }
  }

  /** Operands join exactly when something is printed after an offset. */
  lemma {:induction false} JoinsIff(op: Opcode, j: nat, open: bool)
    requires j <= |op.operands|
    ensures Joins(op, j, open) <==> if open then !AllSilent(op, j) else !OffsetsLast(op, j)
    decreases |op.operands| - j
  {
    if j < |op.operands| {
      var kind := op.operands[j].kind;
      JoinsIff(op, j + 1, open);
      JoinsIff(op, j + 1, OpenAfter(kind, open));
      if !open { OffsetsStep(op, j); }
    }
  }

  lemma OffsetsStep(op: Opcode, j: nat)
    requires j < |op.operands|
    ensures OffsetsLast(op, j) <==> OffsetsLast(op, j + 1) && (op.operands[j].kind.Offset? ==> AllSilent(op, j + 1))
  {
  }

  // ----- reading the text back

  /** One word for each operand that is not silent. */
  function Texts(sprs: seq<SprInfo>, memaddr: nat, op: Opcode, w: nat, j: nat): seq<string>
    requires j <= |op.operands| && Sized(op)
    decreases |op.operands| - j
  {
    if j == |op.operands| then []
    else
      var o := op.operands[j];
      var rest := Texts(sprs, memaddr, op, w, j + 1);
      if o.kind.Silent? then rest else [ItemText(sprs, memaddr, op, o, w, false)] + rest
  }

  lemma {:induction false} SilentTail(sprs: seq<SprInfo>, memaddr: nat, op: Opcode, w: nat, j: nat, open: bool, word: string)
    requires j <= |op.operands| && Sized(op) && AllSilent(op, j)
    ensures Groups(sprs, memaddr, op, w, j, open, word) == [word]
    ensures Texts(sprs, memaddr, op, w, j) == [] && PrintFrom(sprs, memaddr, op, w, j, open) == ""
    decreases |op.operands| - j
  {
    if j < |op.operands| { SilentTail(sprs, memaddr, op, w, j + 1, open, word); }
  }

  /** Operands that do not join are one word each. */
  lemma {:induction false} DetachedGroups(sprs: seq<SprInfo>, memaddr: nat, op: Opcode, w: nat, j: nat, word: string)
    requires j <= |op.operands| && Sized(op) && OffsetsLast(op, j)
    ensures Groups(sprs, memaddr, op, w, j, false, word) == [word] + Texts(sprs, memaddr, op, w, j)
    decreases |op.operands| - j
  {
    if j < |op.operands| {
      OffsetsStep(op, j);
      var o := op.operands[j];
      var item := ItemText(sprs, memaddr, op, o, w, false);
      if o.kind.Offset? {
        SilentTail(sprs, memaddr, op, w, j + 1, true, item);
      } else {
        DetachedGroups(sprs, memaddr, op, w, j + 1, if o.kind.Silent? then word else item);
      }
    }
  }

  lemma {:induction false} LeadingComma(sprs: seq<SprInfo>, memaddr: nat, op: Opcode, w: nat, j: nat)
    requires 0 < j <= |op.operands| && Sized(op)
    ensures var s := PrintFrom(sprs, memaddr, op, w, j, false); s == "" || s[0] == ','
    decreases |op.operands| - j
  {
    if j < |op.operands| && op.operands[j].kind.Silent? { LeadingComma(sprs, memaddr, op, w, j + 1); }
  }

  lemma NoWords(s: string)
    requires s == "" || s[0] == ','
    ensures Words(s) == []
  {
  }

  /** The words of all printed operands: one each when they are detached, too few
      otherwise. */
  lemma PrintedWords(sprs: seq<SprInfo>, memaddr: nat, op: Opcode, w: nat)
    requires Sized(op) && Capitals(sprs)
    ensures var words := Words(PrintFrom(sprs, memaddr, op, w, 0, false));
            if Detached(op) then words == Texts(sprs, memaddr, op, w, 0) else |words| < Spoken(op, 0)
  {
    if op.operands == [] {
      NoWords("");
    } else if op.operands[0].kind.Silent? {
      SilentFirst(sprs, memaddr, op, w);
    } else {
      SpokenFirst(sprs, memaddr, op, w);
    }
  }

  lemma SilentFirst(sprs: seq<SprInfo>, memaddr: nat, op: Opcode, w: nat)
    requires Sized(op) && op.operands != [] && op.operands[0].kind.Silent?
    ensures var words := Words(PrintFrom(sprs, memaddr, op, w, 0, false));
            if Detached(op) then words == Texts(sprs, memaddr, op, w, 0) else |words| < Spoken(op, 0)
  {
    LeadingComma(sprs, memaddr, op, w, 1);
    NoWords(PrintFrom(sprs, memaddr, op, w, 1, false));
    SpokenZero(op, 0);
    if AllSilent(op, 0) { SilentTail(sprs, memaddr, op, w, 0, false, ""); }
  }

  lemma SpokenFirst(sprs: seq<SprInfo>, memaddr: nat, op: Opcode, w: nat)
    requires Sized(op) && Capitals(sprs) && op.operands != [] && !op.operands[0].kind.Silent?
    ensures var words := Words(PrintFrom(sprs, memaddr, op, w, 0, false));
            if Detached(op) then words == Texts(sprs, memaddr, op, w, 0) else |words| < Spoken(op, 0)
  {
    var o := op.operands[0];
    var item, open := ItemText(sprs, memaddr, op, o, w, false), OpenAfter(o.kind, false);
    var text := PrintFrom(sprs, memaddr, op, w, 1, open);
    ItemSolid(sprs, memaddr, op, o, w, false);
    assert PrintFrom(sprs, memaddr, op, w, 0, false) == item + text by { assert ("" + item) + text == item + text; }
    WordsOfPrint(sprs, memaddr, op, w, 1, open, item);
    JoinsIff(op, 0, false);
    if Detached(op) {
      assert OffsetsLast(op, 0);
      OffsetsStep(op, 0);
      if open {
        SilentTail(sprs, memaddr, op, w, 1, open, item);
      } else {
        DetachedGroups(sprs, memaddr, op, w, 1, item);
      }
    } else {
      assert !OffsetsLast(op, 0);
      GroupsCount(sprs, memaddr, op, w, 1, open, item);
    }
  }

  function ValuesFrom(op: Opcode, w: nat, j: nat): (fs: seq<nat>)
    requires j <= |op.operands|
    ensures |fs| == |op.operands| - j && forall i :: 0 <= i < |fs| ==> fs[i] == ValueOf(w, op.operands[j + i])
    decreases |op.operands| - j
  {
    if j == |op.operands| then [] else [ValueOf(w, op.operands[j])] + ValuesFrom(op, w, j + 1)
  }

  predicate LegibleFrom(sprs: seq<SprInfo>, op: Opcode, w: nat, j: nat) {
    forall i :: j <= i < |op.operands| ==> Legible(sprs, op.operands[i], ValueOf(w, op.operands[i]))
  }

  lemma SilentValue(op: Opcode, w: nat, o: Operand)
    requires Matches(op, w) && ClearOf(op, o) && o.kind.Silent?
    ensures ValueOf(w, o) == ValueOf(op.opcode, o)
  {
    forall k: nat ensures Bit(ValueOf(w, o), k) <==> Bit(ValueOf(op.opcode, o), k) {
      BitOfExtract(w, o.shift, o.bits, k);
      BitOfExtract(op.opcode, o.shift, o.bits, k);
      BitOfAnd(w, op.mask, k + o.shift);
      if k < o.bits { assert InField(o, k + o.shift); }
    }
    SameBits(ValueOf(w, o), ValueOf(op.opcode, o));
  }

  /** An operand with its parenthesis is read like the operand alone. */
  lemma ItemParses(sprs: seq<SprInfo>, memaddr: nat, op: Opcode, o: Operand, w: nat)
    requires Shaped(o) && !o.kind.Silent?
    ensures ParseOperand(sprs, memaddr, op, o, ItemText(sprs, memaddr, op, o, w, false)) ==
            ParseOperand(sprs, memaddr, op, o, PrintOperand(sprs, memaddr, op, o, ValueOf(w, o)))
  {
    var s := PrintOperand(sprs, memaddr, op, o, ValueOf(w, o));
    if o.kind.Offset? {
      var v := ValueOf(w, o) % 0x1_0000;
      ReadHexThen(v, s, "(");
      ReadHex(v);
    } else {
      assert s + "" == s;
    }
  }

  lemma ValueFits(w: nat, o: Operand)
    ensures ValueOf(w, o) < Pow2(o.bits)
  {
    LowIsMod(Shr(w, o.shift), o.bits);
  }

  /** The assembler reads from one word for each operand the values in the
      instruction if and only if all of them are legible. */
  lemma {:induction false} ReadTextsIff(sprs: seq<SprInfo>, memaddr: nat, op: Opcode, w: nat, j: nat)
    requires WellFormed(op) && Matches(op, w) && Capitals(sprs) && j <= |op.operands|
    ensures ReadValues(sprs, memaddr, op, j, Texts(sprs, memaddr, op, w, j)) == Got(ValuesFrom(op, w, j)) <==> LegibleFrom(sprs, op, w, j)
    ensures !LegibleFrom(sprs, op, w, j) ==> ReadValues(sprs, memaddr, op, j, Texts(sprs, memaddr, op, w, j)).Err?
    decreases |op.operands| - j
  {
    if j < |op.operands| {
      var o := op.operands[j];
      ReadTextsIff(sprs, memaddr, op, w, j + 1);
      assert LegibleFrom(sprs, op, w, j) <==> Legible(sprs, o, ValueOf(w, o)) && LegibleFrom(sprs, op, w, j + 1);
      if o.kind.Silent? {
        SilentValue(op, w, o);
      } else {
        ValueFits(w, o);
        ItemParses(sprs, memaddr, op, o, w);
        PrintedParsesIff(sprs, memaddr, op, o, ValueOf(w, o));
        assert Texts(sprs, memaddr, op, w, j)[1..] == Texts(sprs, memaddr, op, w, j + 1);
      }
    }
  }

  /** The assembler reads the printed operands as the values in the word if and
      only if they are printed one word each and all are legible; otherwise it
      fails. */
  lemma ReadPrintedIff(sprs: seq<SprInfo>, memaddr: nat, op: Opcode, w: nat)
    requires WellFormed(op) && Matches(op, w) && Capitals(sprs)
    ensures var r := ReadValues(sprs, memaddr, op, 0, Words(PrintFrom(sprs, memaddr, op, w, 0, false)));
            if Detached(op) && LegibleFrom(sprs, op, w, 0) then r == Got(ValuesFrom(op, w, 0)) else r.Err?
  {
    PrintedWords(sprs, memaddr, op, w);
    if Detached(op) {
      ReadTextsIff(sprs, memaddr, op, w, 0);
    } else {
      TooFewWords(sprs, memaddr, op, 0, Words(PrintFrom(sprs, memaddr, op, w, 0, false)));
    }
  }

  // ----- whole instructions

  /** The mnemonic, padded to seven characters and a blank, and the operands. */
  function LineText(name: string, operands: string): string {
    name + (Spaces(if |name| < 7 then 7 - |name| else 0) + (" " + operands))
  }

  lemma LineWords(name: string, operands: string)
    requires Solid(name) && name != ""
    ensures Words(LineText(name, operands)) == [name] + Words(operands)
  {
    var n := if |name| < 7 then 7 - |name| else 0;
    var rest := Spaces(n) + (" " + operands);
    assert rest[0] == ' ';
    WordsBlank(name, rest);
    WordsSpaces(n, " " + operands);
    WordsSkip(operands);
  }

  /** Mnemonics are words in lower case and distinct. */
  ghost predicate Mnemonics(table: seq<Opcode>) {
    && (forall i :: 0 <= i < |table| ==> IsMnemonic(table[i].name))
    && (forall i, j :: 0 <= i < j < |table| ==> table[i].name != table[j].name)
  }

  predicate IsMnemonic(name: string) {
    name != "" && Solid(name) && name == Lower(name)
  }

  lemma MnemonicNames(table: seq<Opcode>, k: nat, entry: nat)
    requires Mnemonics(table) && k < |table|
    ensures Names(table, entry, table[k].name) <==> entry == k
  {
    assert IsMnemonic(table[k].name);
  }

  /** Loads and stores: a register, an offset and a base register. */
  predicate LoadStore(op: Opcode) {
    |op.operands| == 3 && op.operands[0].kind.Register? && op.operands[1].kind.Offset? && op.operands[2].kind.Register?
  }

  /** The text of a load or store: register, offset, and the base register in parentheses. */
  lemma LoadStoreText(sprs: seq<SprInfo>, memaddr: nat, op: Opcode, w: nat, first: string, second: string, third: string)
    requires Sized(op) && LoadStore(op)
    requires first == ItemText(sprs, memaddr, op, op.operands[0], w, false)
    requires second == ItemText(sprs, memaddr, op, op.operands[1], w, false)
    requires third == ItemText(sprs, memaddr, op, op.operands[2], w, true)
    ensures PrintFrom(sprs, memaddr, op, w, 0, false) == first + ("," + (second + third))
  {
    var t3, t2, t1 := PrintFrom(sprs, memaddr, op, w, 3, false), PrintFrom(sprs, memaddr, op, w, 2, true), PrintFrom(sprs, memaddr, op, w, 1, false);
    assert t2 == ("" + third) + t3 by { PrintStep(sprs, memaddr, op, w, 2, true); }
    assert t1 == ("," + second) + t2 by { PrintStep(sprs, memaddr, op, w, 1, false); }
    PrintStep(sprs, memaddr, op, w, 0, false);
    ThreeItems(first, second, third, t1, t2);
  }

  lemma PrintStep(sprs: seq<SprInfo>, memaddr: nat, op: Opcode, w: nat, j: nat, open: bool)
    requires j < |op.operands| && Sized(op) && !op.operands[j].kind.Silent?
    ensures var o := op.operands[j];
            PrintFrom(sprs, memaddr, op, w, j, open) ==
            (Comma(j, open) + ItemText(sprs, memaddr, op, o, w, open)) + PrintFrom(sprs, memaddr, op, w, j + 1, OpenAfter(o.kind, open))
  {
  }

  lemma ThreeItems(first: string, second: string, third: string, t1: string, t2: string)
    requires t2 == ("" + third) + "" && t1 == ("," + second) + t2
    ensures ("" + first) + t1 == first + ("," + (second + third))
  {
  }

  /** The words of a load or store: the base register is in the word of the offset. */
  lemma LoadStoreWords(sprs: seq<SprInfo>, memaddr: nat, op: Opcode, w: nat) returns (first: string, second: string)
    requires Sized(op) && Capitals(sprs) && LoadStore(op)
    ensures first == ItemText(sprs, memaddr, op, op.operands[0], w, false)
    ensures second == ItemText(sprs, memaddr, op, op.operands[1], w, false) + ItemText(sprs, memaddr, op, op.operands[2], w, true)
    ensures PrintFrom(sprs, memaddr, op, w, 0, false) == first + ("," + second)
    ensures Words(PrintFrom(sprs, memaddr, op, w, 0, false)) == [first, second]
  {
    var a, b, c := op.operands[0], op.operands[1], op.operands[2];
    var d, e := ItemText(sprs, memaddr, op, b, w, false), ItemText(sprs, memaddr, op, c, w, true);
    first, second := ItemText(sprs, memaddr, op, a, w, false), d + e;
    assert Solid(first) && first != "" && Solid(second) && second != "" by {
      ItemSolid(sprs, memaddr, op, a, w, false);
      ItemSolid(sprs, memaddr, op, b, w, false);
      ItemSolid(sprs, memaddr, op, c, w, true);
      SolidConcat(d, e);
    }
    assert Words(first + ("," + second)) == [first, second] by {
      WordsComma(first, second);
      WordsOfOne(second);
    }
    LoadStoreText(sprs, memaddr, op, w, first, d, e);
  }

  /** No load or store is assembled from what is printed for it. */
  lemma LoadStoreRefused(sprs: seq<SprInfo>, memaddr: nat, op: Opcode, w: nat)
    requires WellFormed(op) && Capitals(sprs) && LoadStore(op)
    ensures ReadValues(sprs, memaddr, op, 0, Words(PrintFrom(sprs, memaddr, op, w, 0, false))) == Err(NumOperands)
  {
    var a := op.operands[0];
    var first, second := LoadStoreWords(sprs, memaddr, op, w);
    assert ParseOperand(sprs, memaddr, op, a, first).Field? by {
      ValueFits(w, a);
      ItemParses(sprs, memaddr, op, a, w);
      RegisterReadsBack(sprs, memaddr, op, a, ValueOf(w, a));
    }
    assert [first, second][1..] == [second] && [second][1..] == [];
    assert ReadValues(sprs, memaddr, op, 2, []) == Err(NumOperands);
    assert ReadValues(sprs, memaddr, op, 1, [second]) == Err(NumOperands);
  }

  /** Disassembles a word and assembles the text at the same address: the same
      word comes out if and only if the operands are printed one word each, all
      are legible and no bit is set outside the opcode and the operands.  Loads
      and stores are refused for want of operands. */
  method Reassemble(table: seq<Opcode>, sprs: seq<SprInfo>, memaddr: nat, w: nat) returns (k: nat, r: Assembly)
    requires GoodTable(table) && Ordered(table) && Mnemonics(table) && Capitals(sprs) && w < WORD
    ensures k <= |table|
    ensures k == |table| ==> forall i :: 0 <= i < |table| ==> !Matches(table[i], w)
    ensures k < |table| ==> Matches(table[k], w)
    ensures k < |table| ==>
              (r == Assembled(k, w) <==> Detached(table[k]) && LegibleFrom(sprs, table[k], w, 0) && NoStray(table[k], w))
    ensures k < |table| && LoadStore(table[k]) ==> r == Failed(NumOperands)
  {
    k := FindOpcode(table, w);
    if k == |table| { return k, Blank; }
    var op := table[k];
    var operands := PrintOperands(sprs, memaddr, op, w);
    assert IsMnemonic(table[k].name);
    var line := LineText(op.name, operands);
    LineWords(op.name, operands);
    assert Words(line)[1..] == Words(operands);
    r := AsmPpc(table, sprs, memaddr, line);
    Settle(table, sprs, memaddr, w, k, Words(line), Words(operands), r);
  }

  /** What the assembler's answer to a printed line says about the word. */
  lemma Settle(table: seq<Opcode>, sprs: seq<SprInfo>, memaddr: nat, w: nat, k: nat, words: seq<string>, rest: seq<string>, r: Assembly)
    requires GoodTable(table) && Mnemonics(table) && Capitals(sprs) && k < |table| && Matches(table[k], w)
    requires words == [table[k].name] + rest && rest == Words(PrintFrom(sprs, memaddr, table[k], w, 0, false))
    requires !r.Blank?
    requires r.Assembled? ==>
               Names(table, r.entry, words[0]) &&
               var v := ReadValues(sprs, memaddr, table[r.entry], 0, rest); v.Got? && Encodes(table[r.entry], r.instr, v.fs)
    requires r.Failed? ==>
               if forall i :: 0 <= i < |table| ==> table[i].name != Lower(words[0]) then r.error == BadOpcode
               else exists i: nat :: Names(table, i, words[0]) && ReadValues(sprs, memaddr, table[i], 0, rest) == Err(r.error)
    ensures r == Assembled(k, w) <==> Detached(table[k]) && LegibleFrom(sprs, table[k], w, 0) && NoStray(table[k], w)
    ensures LoadStore(table[k]) ==> r == Failed(NumOperands)
  {
    var op := table[k];
    assert IsMnemonic(table[k].name) && WellFormed(table[k]);
    ReadPrintedIff(sprs, memaddr, op, w);
    if LoadStore(op) { LoadStoreRefused(sprs, memaddr, op, w); }
    match r
    case Assembled(entry, instr) =>
      MnemonicNames(table, k, entry);
      if NoStray(op, w) { EncodesUnique(op, w, instr, ValuesFrom(op, w, 0)); }
    case Failed(e) =>
      assert table[k].name == Lower(words[0]);
      var i: nat :| Names(table, i, words[0]) && ReadValues(sprs, memaddr, table[i], 0, rest) == Err(e);
      MnemonicNames(table, k, i);
  }

  // ----- the loads and stores of the opcode table

  /** An entry of the table for a load or store, by its primary opcode: a
      register, a 15-bit offset and a base register. */
  ghost predicate LoadStoreEntry(op: Opcode, primary: nat, first: nat) {
    && op.opcode == Shl(primary, 26) && op.mask == Shl(63, 26) && primary < 64
    && op.operands == [Operand(first, 5, 21, Register), Operand(9, 15, 0, Offset), Operand(O_rA, 5, 16, Register)]
  }

  lemma ShiftedBack(x: nat, s: nat)
    ensures Shr(Shl(x, s), s) == x
  {
    forall k: nat ensures Bit(Shr(Shl(x, s), s), k) <==> Bit(x, k) {
      BitOfShr(Shl(x, s), s, k);
      BitOfShl(x, s, k + s);
    }
    SameBits(Shr(Shl(x, s), s), x);
  }

  /** Below what is shifted in, a field is clear. */
  lemma ClearBelow(x: nat, top: nat, s: nat, b: nat)
    requires s + b <= top
    ensures Extract(Shl(x, top), s, b) == 0
  {
    forall k: nat ensures Bit(Extract(Shl(x, top), s, b), k) <==> Bit(0, k) {
      BitOfExtract(Shl(x, top), s, b, k);
      BitOfShl(x, top, k + s);
      BitOfZero(k);
    }
    SameBits(Extract(Shl(x, top), s, b), 0);
  }

  lemma AndHalves(a: nat, b: nat)
    ensures And(a, b) == Cons(a % 2 == 1 && b % 2 == 1, And(a / 2, b / 2))
  {
  }

  lemma {:induction false} AndShifted(w: nat, m: nat, s: nat)
    ensures And(w, Shl(m, s)) == Shl(And(Shr(w, s), m), s)
    decreases s
  {
    if s > 0 {
      AndShifted(w / 2, m, s - 1);
      assert Shl(m, s) / 2 == Shl(m, s - 1) && Shl(m, s) % 2 == 0;
      AndHalves(w, Shl(m, s));
    }
  }

  lemma TwiceProduct(m: nat, p: nat)
    ensures 2 * (m * p) == m * (2 * p)
  {
  }

  lemma {:induction false} ShlIsMul(m: nat, s: nat)
    ensures Shl(m, s) == m * Pow2(s)
    decreases s
  {
    if s > 0 {
      ShlIsMul(m, s - 1);
      TwiceProduct(m, Pow2(s - 1));
    }
  }

  lemma SixOnes(x: nat)
    requires x < 64
    ensures And(x, 63) == x
  {
    assert Pow2(6) == 64;
    AndOnes(x, 6);
  }

  lemma MaskFits()
    ensures Shl(63, 26) < WORD
  {
    ShlIsMul(63, 26);
    PowersOf2();
    Pow2Add(16, 10);
  }

  /** Such an entry is well-formed. */
  lemma LoadStoreWellFormed(op: Opcode, primary: nat, first: nat)
    requires LoadStoreEntry(op, primary, first)
    ensures WellFormed(op) && LoadStore(op)
  {
    assert And(op.opcode, op.mask) == op.opcode by {
      AndShifted(op.opcode, 63, 26);
      ShiftedBack(primary, 26);
      SixOnes(primary);
    }
    MaskFits();
    forall i | 0 <= i < 3 ensures Shaped(op.operands[i]) && ClearOf(op, op.operands[i]) {
      var o := op.operands[i];
      ClearBelow(primary, 26, o.shift, o.bits);
      ClearBelow(63, 26, o.shift, o.bits);
    }
  }

  /** For every load or store, words without stray bits, all of them legible, are
      refused: the bare opcode word is one. */
  lemma LoadStoreLost(sprs: seq<SprInfo>, memaddr: nat, op: Opcode, primary: nat, first: nat)
    requires LoadStoreEntry(op, primary, first) && Capitals(sprs)
    ensures WellFormed(op) && Matches(op, op.opcode) && NoStray(op, op.opcode) && LegibleFrom(sprs, op, op.opcode, 0)
    ensures ReadValues(sprs, memaddr, op, 0, Words(PrintFrom(sprs, memaddr, op, op.opcode, 0, false))) == Err(NumOperands)
  {
    LoadStoreWellFormed(op, primary, first);
    OpcodeFilled(op);
    LoadStoreRefused(sprs, memaddr, op, op.opcode);
  }

  // ----- an example

  /** Word 0x80610008 in fields: opcode 32, register 3, offset 8, base 1. */
  predicate IsExample(w: nat) {
    && w / 0x400_0000 == 32 && w / 0x20_0000 % 32 == 3 && w / 0x1_0000 % 32 == 1
    && w / 0x8000 % 2 == 0 && w % 0x8000 == 8
  }

  lemma ExampleWord()
    ensures IsExample(0x8061_0008)
  {
  }

  lemma {:induction false} ShrIsDiv(w: nat, s: nat)
    ensures 0 < Pow2(s) && Shr(w, s) == w / Pow2(s)
    decreases s
  {
    Pow2Positive(s);
    if s > 0 {
      ShrIsDiv(w / 2, s - 1);
      DivDiv(w, 2, Pow2(s - 1));
    }
  }

  /** A field in numbers. */
  lemma ExtractIs(w: nat, s: nat, b: nat, p: nat, q: nat)
    requires p == Pow2(s) && q == Pow2(b)
    ensures 0 < p && 0 < q && Extract(w, s, b) == w / p % q
  {
    ShrIsDiv(w, s);
    LowIsMod(Shr(w, s), b);
  }

  lemma HighPowers()
    ensures Pow2(5) == 32 && Pow2(15) == 0x8000 && Pow2(16) == 0x1_0000 && Pow2(21) == 0x20_0000 && Pow2(26) == 0x400_0000
  {
    PowersOf2();
    Pow2Add(10, 5);
    Pow2Add(16, 5);
    Pow2Add(16, 10);
  }

  lemma ExampleValues(op: Opcode, first: nat, w: nat)
    requires LoadStoreEntry(op, 32, first) && IsExample(w)
    ensures ValueOf(w, op.operands[0]) == 3 && ValueOf(w, op.operands[1]) == 8 && ValueOf(w, op.operands[2]) == 1
  {
    HighPowers();
    assert Pow2(0) == 1;
    var a, b, c := op.operands[0], op.operands[1], op.operands[2];
    ExtractIs(w, a.shift, a.bits, 0x20_0000, 32);
    ExtractIs(w, b.shift, b.bits, 1, 0x8000);
    ExtractIs(w, c.shift, c.bits, 0x1_0000, 32);
  }

  lemma ExampleMatches(op: Opcode, first: nat, w: nat)
    requires LoadStoreEntry(op, 32, first) && IsExample(w)
    ensures Matches(op, w)
  {
    HighPowers();
    ShrIsDiv(w, 26);
    AndShifted(w, 63, 26);
    SixOnes(32);
  }

  /** Only bit 15 lies outside opcode and operands, and it is clear. */
  lemma ExampleNoStray(op: Opcode, first: nat, w: nat)
    requires LoadStoreEntry(op, 32, first) && IsExample(w)
    ensures NoStray(op, w)
  {
    forall k: nat | Bit(w, k) ensures Placed(op, k) {
      if k < 15 {
        assert InField(op.operands[1], k);
      } else if k == 15 {
        HighPowers();
        ShrIsDiv(w, k);
        BitOfShr(w, k, 0);
      } else if k < 21 {
        assert InField(op.operands[2], k);
      } else if k < 26 {
        assert InField(op.operands[0], k);
      } else {
        ExampleTop(w, k);
        BitOfShl(63, 26, k);
      }
    }
  }

  lemma ExampleTop(w: nat, k: nat)
    requires IsExample(w) && 26 <= k && Bit(w, k)
    ensures Bit(63, k - 26)
  {
    HighPowers();
    ShrIsDiv(w, 26);
    BitOfShr(w, 26, k - 26);
    OnlySixBits(k - 26);
  }

  /** Every bit of 32 is one of 63. */
  lemma OnlySixBits(k: nat)
    requires Bit(32, k)
    ensures Bit(63, k)
  {
    SixOnes(32);
    BitOfAnd(32, 63, k);
  }

  lemma OneDigit(v: nat, base: nat)
    requires v < base && 2 <= base <= 16
    ensures Digits(v, base) == [DigitChar(v)]
  {
  }

  lemma ExampleText(sprs: seq<SprInfo>, memaddr: nat, op: Opcode, first: nat, w: nat)
    requires LoadStoreEntry(op, 32, first) && IsExample(w) && Sized(op)
    ensures PrintFrom(sprs, memaddr, op, w, 0, false) == "r3" + ("," + ("0x8(" + "r1)"))
  {
    ExampleValues(op, first, w);
    assert ItemText(sprs, memaddr, op, op.operands[0], w, false) == "r3" by { OneDigit(3, 10); }
    assert ItemText(sprs, memaddr, op, op.operands[1], w, false) == "0x8(" by { OneDigit(8, 16); }
    assert ItemText(sprs, memaddr, op, op.operands[2], w, true) == "r1)" by { OneDigit(1, 10); }
    LoadStoreText(sprs, memaddr, op, w, "r3", "0x8(", "r1)");
  }

  /** "lwz r3,0x8(r1)": the word is legible and has no stray bit, yet its text, with
      two words for three operands, is refused. */
  lemma ExampleRefused(sprs: seq<SprInfo>, memaddr: nat, op: Opcode, first: nat, w: nat)
    requires LoadStoreEntry(op, 32, first) && IsExample(w) && Capitals(sprs)
    ensures WellFormed(op) && Matches(op, w) && NoStray(op, w) && LegibleFrom(sprs, op, w, 0)
    ensures PrintFrom(sprs, memaddr, op, w, 0, false) == "r3" + ("," + ("0x8(" + "r1)"))
    ensures ReadValues(sprs, memaddr, op, 0, Words(PrintFrom(sprs, memaddr, op, w, 0, false))) == Err(NumOperands)
  {
    LoadStoreWellFormed(op, 32, first);
    ExampleMatches(op, first, w);
    ExampleNoStray(op, first, w);
    ExampleText(sprs, memaddr, op, first, w);
    LoadStoreRefused(sprs, memaddr, op, w);
  }
}
