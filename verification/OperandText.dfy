/** What a person may write for an operand, and the field the assembler makes of it. */
module OperandText {
  import opened Arithmetic
  import opened Numerals
  import opened Bits
  import opened AsmText
  import opened Assembler
  import opened AssembleWord
  import opened Disassembler

  // ----- numbers

  lemma SignedIs(x: int)
    ensures -0x8000_0000 <= Signed(x) < 0x8000_0000 && Signed(x) % WORD == x % WORD
  {
  }

  /** `t` is number `x` in decimal or hexadecimal, with a minus sign if there is one. */
  predicate Writes(t: string, x: int) {
    0 - WORD < x < WORD &&
    if x < 0 then t == "-" + Digits(-x, 10) || t == "-0x" + Digits(-x, 16) || t == "-0X" + Digits(-x, 16)
    else t == Digits(x, 10) || t == "0x" + Digits(x, 16) || t == "0X" + Digits(x, 16)
  }

  lemma ReadDecimalAt(t: string, i: nat, v: nat)
    requires i <= |t| && t[i..] == Digits(v, 10) && v < WORD
    ensures StrToUl(t, i, 10).0 == v && !(At(t, i) == '0' && (At(t, i + 1) == 'x' || At(t, i + 1) == 'X'))
    ensures At(t, i) != '-'
  {
    var d := Digits(v, 10);
    assert t[i..i + |d|] == d;
    FirstDigit(v, 10);
    assert t[i] == t[i..][0];
    ReadsBack(t, i, v, 10);
    if v == 0 { assert |d| == 1; }
  }

  lemma ReadHexAt(t: string, i: nat, v: nat)
    requires i + 2 <= |t| && t[i] == '0' && (t[i + 1] == 'x' || t[i + 1] == 'X') && t[i + 2..] == Digits(v, 16) && v < WORD
    ensures StrToUl(t, i + 2, 16).0 == v
  {
    var d := Digits(v, 16);
    assert t[i + 2..i + 2 + |d|] == d;
    ReadsBack(t, i + 2, v, 16);
  }

  /** Every number is read as what it says, modulo 2^32. */
  lemma WrittenRead(t: string, x: int)
    requires Writes(t, x)
    ensures ReadNumber(t) == Signed(x)
  {
    var i, v := if x < 0 then 1 else 0, if x < 0 then -x else x;
    if t[i..] == Digits(v, 10) {
      ReadDecimalAt(t, i, v);
    } else {
      assert t[i + 2..] == Digits(v, 16);
      ReadHexAt(t, i, v);
    }
  }

  lemma {:induction false} PowerDivides(b: nat, n: nat) returns (k: nat)
    requires b <= n
    ensures Pow2(n) == k * Pow2(b)
  {
    k := Pow2(n - b);
    Pow2Add(n - b, b);
  }

  /** The low bits of a word are those of the number. */
  lemma LowOfSigned(x: int, bits: nat)
    requires bits <= 32
    ensures 0 < Pow2(bits) && Low(Signed(x), bits) == x % Pow2(bits)
  {
    LowIsMod(Signed(x), bits);
    Word32();
    var k := PowerDivides(bits, 32);
    SignedIs(x);
    ModOfPart(x, WORD, k, Pow2(bits));
    ModOfPart(Signed(x), WORD, k, Pow2(bits));
  }

  /** A remainder keeps the smaller remainders. */
  lemma ModOfPart(x: int, w: nat, k: nat, p: nat)
    requires 0 < w && 0 < p && w == k * p
    ensures x % w % p == x % p
  {
    var q, r := x / w, x % w;
    assert x == q * w + r && q * (k * p) == (q * k) * p;
    ModOfSum(q * k, p, r);
  }

  /** A number written for an operand is in its field modulo two to its bits, be it
      signed or not, in decimal or in hexadecimal. */
  lemma NumberFilled(sprs: seq<SprInfo>, memaddr: nat, op: Opcode, o: Operand, t: string, x: int)
    requires Shaped(o) && (o.kind.Plain? || o.kind.Offset?) && Writes(t, x)
    ensures 0 < Pow2(o.bits) && ParseOperand(sprs, memaddr, op, o, t) == Field(x % Pow2(o.bits))
  {
    WrittenRead(t, x);
    LowOfSigned(x, o.bits);
  }

  // ----- registers

  /** A general register is written by number, with or without an r and a percent sign. */
  predicate WritesRegister(t: string, n: nat) {
    n < WORD / 2 &&
    var d := Digits(n, 10); t == d || t == "r" + d || t == "R" + d || t == "%r" + d || t == "%R" + d
  }

  lemma RegisterRead(t: string, n: nat)
    requires WritesRegister(t, n)
    ensures RegisterNumber(t) == n
  {
    var d := Digits(n, 10);
    FirstDigit(n, 10);
    DecimalDigits(n);
    ReadDecimal(n);
    if t != d { RegisterTail(t, d); }
  }

  lemma RegisterTail(t: string, d: string)
    requires t == "r" + d || t == "R" + d || t == "%r" + d || t == "%R" + d
    ensures t[1..] == d || (t[0] == '%' && t[2..] == d)
  {
  }

  /** Registers 0 to 31 are taken, others refused. */
  lemma RegisterFilled(sprs: seq<SprInfo>, memaddr: nat, op: Opcode, o: Operand, t: string, n: nat)
    requires Shaped(o) && o.kind.Register? && WritesRegister(t, n)
    ensures ParseOperand(sprs, memaddr, op, o, t) == if n < 32 then Field(n) else Bad(BadRegister)
  {
    RegisterRead(t, n);
    PowersOf2();
    if n < 32 { LowOfSmall(n, 5); }
  }

  /** A special register by number is split: the low half of the number is the high
      half of the field.  Number 0 is refused. */
  lemma SprFilled(sprs: seq<SprInfo>, memaddr: nat, op: Opcode, o: Operand, n: nat)
    requires Shaped(o) && o.kind.Spr? && n < 1024
    ensures match ParseOperand(sprs, memaddr, op, o, Digits(n, 10))
            case Field(f) => 0 < n && f / 32 == n % 32 && f % 32 == n / 32
            case Bad(e) => n == 0 && e == BadSpr
  {
    ReadDecimal(n);
    var t, f := Digits(n, 10), HalfSwap(n);
    assert f < 1024 && f / 32 == n % 32 && f % 32 == n / 32 by { SwapHalves(n); }
    assert SprValue(sprs, t) == f;
    assert Low(f, 10) == f by {
      PowersOf2();
      LowOfSmall(f, 10);
    }
    assert ParseOperand(sprs, memaddr, op, o, t) == if f == 0 then Bad(BadSpr) else Field(f);
  }

  lemma SwapHalves(n: nat)
    requires n < 1024
    ensures HalfSwap(n) < 1024 && HalfSwap(n) / 32 == n % 32 && HalfSwap(n) % 32 == n / 32
  {
  }

  /** The time base registers by name, in either case. */
  lemma TbrFilled(sprs: seq<SprInfo>, memaddr: nat, op: Opcode, o: Operand)
    requires Shaped(o) && o.kind.Tbr?
    ensures ParseOperand(sprs, memaddr, op, o, "TBL") == ParseOperand(sprs, memaddr, op, o, "tbl") == Field(12 * 32 + 8)
    ensures ParseOperand(sprs, memaddr, op, o, "TBU") == ParseOperand(sprs, memaddr, op, o, "tbu") == Field(13 * 32 + 8)
  {
    TbrNames();
    TbrName(sprs, memaddr, op, o, "TBL", 12 * 32 + 8);
    TbrName(sprs, memaddr, op, o, "tbl", 12 * 32 + 8);
    TbrName(sprs, memaddr, op, o, "TBU", 13 * 32 + 8);
    TbrName(sprs, memaddr, op, o, "tbu", 13 * 32 + 8);
  }

  lemma TbrNames()
    ensures TbrValue("TBL") == TbrValue("tbl") == 12 * 32 + 8
    ensures TbrValue("TBU") == TbrValue("tbu") == 13 * 32 + 8
  {
    assert Lower("TBL") == "tbl" && Lower("tbl") == "tbl" && Lower("TBU") == "tbu" && Lower("tbu") == "tbu";
  }

  lemma TbrName(sprs: seq<SprInfo>, memaddr: nat, op: Opcode, o: Operand, t: string, f: nat)
    requires Shaped(o) && o.kind.Tbr? && TbrValue(t) == f && 0 < f < 1024
    ensures ParseOperand(sprs, memaddr, op, o, t) == Field(f)
  {
    PowersOf2();
    LowOfSmall(f, 10);
  }

  // ----- branch targets

  /** Field `f` of `bits` bits as a signed number. */
  function TwosComplement(f: nat, bits: nat): int
    requires 0 < bits
  {
    if f < Pow2(bits - 1) then f else f - Pow2(bits)
  }

  lemma ShownIs(f: nat, bits: nat)
    requires 0 < bits && f < Pow2(bits)
    ensures ShowAddress(f, bits) == 4 * TwosComplement(f, bits)
  {
    TopBit(f, bits - 1);
  }

  /** A branch with field value `f` goes from `origin` to `target`: four times the
      signed field. */
  ghost predicate Reaches(origin: nat, f: nat, bits: nat, target: nat)
    requires 0 < bits
  {
    SameWord(4 * TwosComplement(f, bits) + origin, target)
  }

  /** The two agree in their low 32 bits. */
  ghost predicate SameWord(a: int, b: int) {
    exists k: int :: a == b + Wraps(k)
  }

  function Wraps(k: int): int {
    k * WORD
  }

  /** Relative branches start at the instruction, absolute ones at 0. */
  predicate StartsAt(op: Opcode, memaddr: nat, origin: nat) {
    origin == if op.relative then memaddr else 0
  }

  /** The target printed for a branch is where it goes. */
  lemma TargetPrinted(sprs: seq<SprInfo>, memaddr: nat, op: Opcode, o: Operand, f: nat, origin: nat) returns (target: nat)
    requires Shaped(o) && o.kind.Address? && f < Pow2(o.bits) && StartsAt(op, memaddr, origin)
    ensures target < WORD && Reaches(origin, f, o.bits, target)
    ensures PrintOperand(sprs, memaddr, op, o, f) == "0x" + Digits(target, 16)
  {
    target := (ShowAddress(f, o.bits) + origin) % WORD;
    ShownReaches(f, o.bits, origin, target);
  }

  lemma ShownReaches(f: nat, bits: nat, origin: nat, target: nat)
    requires 0 < bits && f < Pow2(bits) && target == (ShowAddress(f, bits) + origin) % WORD
    ensures Reaches(origin, f, bits, target)
  {
    ShownIs(f, bits);
    var x := ShowAddress(f, bits) + origin;
    assert x == target + Wraps(x / WORD);
  }

  /** A branch to a target in reach and a multiple of four away goes there. */
  lemma TargetFilled(sprs: seq<SprInfo>, memaddr: nat, op: Opcode, o: Operand, t: string, target: nat, origin: nat) returns (f: nat)
    requires Shaped(o) && o.kind.Address? && target < WORD && Writes(t, target) && StartsAt(op, memaddr, origin)
    requires InReach(Signed(target - origin), o.bits)
    ensures ParseOperand(sprs, memaddr, op, o, t) == Field(f) && f < Pow2(o.bits) && Reaches(origin, f, o.bits, target)
  {
    assert ReadNumber(t) == Signed(target) by { WrittenRead(t, target); }
    f := TargetPacked(o.bits, origin, target);
    assert Signed(Signed(target) - origin) == Signed(target - origin) by { SignedAgain(target, origin); }
    NumberPacked(sprs, memaddr, op, o, t, Signed(target), Signed(target - origin));
  }

  lemma NumberPacked(sprs: seq<SprInfo>, memaddr: nat, op: Opcode, o: Operand, t: string, n: int, d: int)
    requires Shaped(o) && o.kind.Address? && ReadNumber(t) == n && Signed(n - Base(op, memaddr)) == d
    ensures ParseOperand(sprs, memaddr, op, o, t) == Field(PackAddress(d, o.bits))
  {
  }

  lemma TargetPacked(bits: nat, base: nat, target: nat) returns (f: nat)
    requires 0 < bits && InReach(Signed(target - base), bits)
    ensures f == PackAddress(Signed(target - base), bits) < Pow2(bits) && Reaches(base, f, bits, target)
  {
    var d := Signed(target - base);
    f := PackAddress(d, bits);
    assert f < Pow2(bits) by { PackedAddress(d, bits); }
    assert 4 * TwosComplement(f, bits) == d by {
      ShownInReach(d, bits);
      ShownIs(f, bits);
    }
    SignedWraps(target - base);
    var k :| d == target - base + Wraps(k);
    assert d + base == target + Wraps(k);
  }

  lemma SignedAgain(x: int, base: int)
    ensures Signed(Signed(x) - base) == Signed(x - base)
  {
  }

  lemma SignedWraps(x: int)
    ensures exists k :: Signed(x) == x + Wraps(k)
  {
    var q, u := x / WORD, x % WORD;
    assert x == q * WORD + u;
    assert Signed(x) == x + Wraps(if u < WORD / 2 then -q else -q - 1);
  }

  // ----- instructions with an immediate operand

  /** An entry of the table with two registers and a 16-bit number, by its primary opcode. */
  ghost predicate Immediate(op: Opcode, primary: nat, first: nat, last: nat) {
    && op.opcode == Shl(primary, 26) && op.mask == Shl(63, 26) && primary < 64
    && op.operands == [Operand(first, 5, 21, Register), Operand(O_rA, 5, 16, Register), Operand(last, 16, 0, Plain)]
  }

  /** Such an entry is well-formed. */
  lemma ImmediateWellFormed(op: Opcode, primary: nat, first: nat, last: nat)
    requires Immediate(op, primary, first, last)
    ensures WellFormed(op)
  {
    assert And(op.opcode, op.mask) == op.opcode by {
      AndShifted(op.opcode, 63, 26);
      ShiftedBack(primary, 26);
      SixOnes(primary);
    }
    MaskFits();
    forall i | 0 <= i < 3 ensures Shaped(op.operands[i]) && ClearOf(op, op.operands[i]) {
      var o := op.operands[i];
      ClearBelow(primary, 26, o.shift, o.bits);
      ClearBelow(63, 26, o.shift, o.bits);
    }
  }

  /** Its parts add up to the word. */
  lemma Composed(w: nat, p: nat, d: nat, a: nat, x: nat)
    requires w / 0x400_0000 == p && w / 0x20_0000 % 32 == d && w / 0x1_0000 % 32 == a && w % 0x1_0000 == x
    ensures w == p * 0x400_0000 + d * 0x20_0000 + a * 0x1_0000 + x
  {
    var h := w / 0x1_0000;
    assert w == h * 0x1_0000 + x;
    assert h / 32 == w / 0x20_0000 && h / 1024 == p;
    Halves(h, p, d, a);
  }

  lemma Halves(h: nat, p: nat, d: nat, a: nat)
    requires h / 1024 == p && h / 32 % 32 == d && h % 32 == a
    ensures h == (p * 32 + d) * 32 + a
  {
    var v := h / 32;
    assert h == v * 32 + a && v / 32 == p && v == p * 32 + d;
  }

  lemma ImmediateFields(op: Opcode, primary: nat, first: nat, last: nat, w: nat)
    requires Immediate(op, primary, first, last)
    ensures ValueOf(w, op.operands[0]) == w / 0x20_0000 % 32
    ensures ValueOf(w, op.operands[1]) == w / 0x1_0000 % 32
    ensures ValueOf(w, op.operands[2]) == w % 0x1_0000
  {
    HighPowers();
    assert Pow2(0) == 1;
    ExtractIs(w, 21, 5, 0x20_0000, 32);
    ExtractIs(w, 16, 5, 0x1_0000, 32);
    ExtractIs(w, 0, 16, 1, 0x1_0000);
  }

  /** Opcode and fields make the word. */
  lemma ImmediateWord(op: Opcode, primary: nat, first: nat, last: nat, w: nat, fs: seq<nat>)
    requires Immediate(op, primary, first, last) && WellFormed(op) && Encodes(op, w, fs)
    ensures w == primary * 0x400_0000 + fs[0] * 0x20_0000 + fs[1] * 0x1_0000 + fs[2]
  {
    ImmediateFields(op, primary, first, last, w);
    assert w / 0x400_0000 == primary by { PrimaryOf(op, primary, w); }
    Composed(w, primary, fs[0], fs[1], fs[2]);
  }

  lemma PrimaryOf(op: Opcode, primary: nat, w: nat)
    requires op.opcode == Shl(primary, 26) && op.mask == Shl(63, 26) && WellFormed(op) && And(w, op.mask) == op.opcode && NoStray(op, w)
    ensures w / 0x400_0000 == primary
  {
    AndShifted(w, 63, 26);
    ShiftedBack(And(Shr(w, 26), 63), 26);
    ShiftedBack(primary, 26);
    EncodedIsWord(op, w);
    Word32();
    ShrBound(w, 26, 6);
    assert Pow2(6) == 64;
    SixOnes(Shr(w, 26));
    HighPowers();
    ShrIsDiv(w, 26);
  }

  /** The three words give the three fields, or a register is refused. */
  lemma ImmediateValues(sprs: seq<SprInfo>, memaddr: nat, op: Opcode, primary: nat, first: nat, last: nat,
                        words: seq<string>, d: nat, a: nat, x: int)
    requires Immediate(op, primary, first, last) && WellFormed(op) && |words| == 3
    requires WritesRegister(words[0], d) && WritesRegister(words[1], a) && Writes(words[2], x)
    ensures ReadValues(sprs, memaddr, op, 0, words) ==
            if d < 32 && a < 32 then Got([d, a, x % 0x1_0000]) else Err(BadRegister)
  {
    assert forall i :: 0 <= i < 3 ==> Shaped(op.operands[i]);
    var rest := words[1..];
    var f := x % 0x1_0000;
    assert rest[0] == words[1] && rest[1..] == words[2..];
    assert ReadValues(sprs, memaddr, op, 2, words[2..]) == Got([f]) by { LastNumber(sprs, memaddr, op, words[2..], x); }
    assert ReadValues(sprs, memaddr, op, 1, rest) == if a < 32 then Got([a, f]) else Err(BadRegister) by {
      RegisterFilled(sprs, memaddr, op, op.operands[1], words[1], a);
      assert [a] + [f] == [a, f];
    }
    RegisterFilled(sprs, memaddr, op, op.operands[0], words[0], d);
    assert [d] + [a, f] == [d, a, f];
  }

  lemma LastNumber(sprs: seq<SprInfo>, memaddr: nat, op: Opcode, words: seq<string>, x: int)
    requires |op.operands| == 3 && Sized(op) && Shaped(op.operands[2]) && op.operands[2].kind.Plain? && op.operands[2].bits == 16
    requires |words| == 1 && Writes(words[0], x)
    ensures ReadValues(sprs, memaddr, op, 2, words) == Got([x % 0x1_0000])
  {
    PowersOf2();
    NumberFilled(sprs, memaddr, op, op.operands[2], words[0], x);
    var f := x % 0x1_0000;
    assert ReadValues(sprs, memaddr, op, 3, words[1..]) == Got([]);
    assert [f] + [] == [f];
  }

  /** Assembling such a line gives opcode, registers and the number modulo 2^16 in
      their places, and refuses registers past 31. */
  method AsmImmediate(table: seq<Opcode>, k: nat, primary: nat, first: nat, last: nat, sprs: seq<SprInfo>, memaddr: nat, line: string,
                      ghost d: nat, ghost a: nat, ghost x: int) returns (r: Assembly)
    requires GoodTable(table) && k < |table| && Immediate(table[k], primary, first, last)
    requires |Words(line)| == 4 && Names(table, k, Words(line)[0])
    requires WritesRegister(Words(line)[1], d) && WritesRegister(Words(line)[2], a) && Writes(Words(line)[3], x)
    ensures r == if d < 32 && a < 32 then Assembled(k, primary * 0x400_0000 + d * 0x20_0000 + a * 0x1_0000 + x % 0x1_0000)
                 else Failed(BadRegister)
  {
    ghost var op, words := table[k], Words(line)[1..];
    assert WellFormed(op);
    ImmediateValues(sprs, memaddr, op, primary, first, last, words, d, a, x);
    r := AsmPpc(table, sprs, memaddr, line);
    assert table[k].name == Lower(Words(line)[0]);
    EntryOf(table, sprs, memaddr, k, Words(line)[0], words, r);
    if r.Assembled? { ImmediateWord(op, primary, first, last, r.instr, [d, a, x % 0x1_0000]); }
  }

  /** The answer to a line speaks of the entry its mnemonic names. */
  lemma EntryOf(table: seq<Opcode>, sprs: seq<SprInfo>, memaddr: nat, k: nat, name: string, words: seq<string>, r: Assembly)
    requires GoodTable(table) && Names(table, k, name)
    requires r.Assembled? ==>
               Names(table, r.entry, name) &&
               var v := ReadValues(sprs, memaddr, table[r.entry], 0, words); v.Got? && Encodes(table[r.entry], r.instr, v.fs)
    requires r.Failed? ==> exists i: nat :: Names(table, i, name) && ReadValues(sprs, memaddr, table[i], 0, words) == Err(r.error)
    ensures match r
            case Blank => true
            case Assembled(entry, w) =>
              var v := ReadValues(sprs, memaddr, table[k], 0, words); entry == k && v.Got? && Encodes(table[k], w, v.fs)
            case Failed(e) => ReadValues(sprs, memaddr, table[k], 0, words) == Err(e)
  {
    if r.Assembled? { assert r.entry == k; }
    if r.Failed? {
      var i: nat :| Names(table, i, name) && ReadValues(sprs, memaddr, table[i], 0, words) == Err(r.error);
      assert i == k;
    }
  }

  /** "addi r1,r1,-16", which makes room on the stack, is 0x3821FFF0. */
  method AddMinusSixteen(table: seq<Opcode>, k: nat, primary: nat, first: nat, last: nat, sprs: seq<SprInfo>, memaddr: nat, line: string)
      returns (r: Assembly)
    requires GoodTable(table) && k < |table| && Immediate(table[k], primary, first, last) && primary == 14
    requires |Words(line)| == 4 && Names(table, k, Words(line)[0]) && OnStack(Words(line)[1..])
    ensures r == Assembled(k, 0x3821_FFF0)
  {
    AddTexts(Words(line)[1..]);
    r := AsmImmediate(table, k, primary, first, last, sprs, memaddr, line, 1, 1, -16);
  }

  /** One such line. */
  lemma AddWords()
    ensures Words("addi" + (" " + ("r1" + ("," + ("r1" + ("," + "-16")))))) == ["addi", "r1", "r1", "-16"]
  {
    var rest := "r1" + ("," + "-16");
    WordsOfOne("-16");
    assert Words(rest) == ["r1", "-16"] by { WordsComma("r1", "-16"); }
    assert Words("r1" + ("," + rest)) == ["r1"] + Words(rest) by { WordsComma("r1", rest); }
    WordsSkip("r1" + ("," + rest));
    WordsBlank("addi", " " + ("r1" + ("," + rest)));
    assert ["addi"] + (["r1"] + ["r1", "-16"]) == ["addi", "r1", "r1", "-16"];
  }

  predicate OnStack(words: seq<string>) {
    words == ["r1", "r1", "-16"]
  }

  lemma AddTexts(words: seq<string>)
    requires OnStack(words)
    ensures |words| == 3 && WritesRegister(words[0], 1) && WritesRegister(words[1], 1) && Writes(words[2], -16)
  {
    OneDigit(1, 10);
    assert Digits(16, 10) == "16" by {
      OneDigit(1, 10);
      assert Digits(16, 10) == Digits(1, 10) + [DigitChar(6)];
    }
    assert "-16" == "-" + "16" && "r1" == "r" + "1";
  }
}
