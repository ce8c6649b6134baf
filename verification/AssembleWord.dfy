/** Whole instructions: assembling a line and finding the opcode of a word again. */
module AssembleWord {
  import opened Arithmetic
  import opened Numerals
  import opened Bits
  import opened AsmText
  import opened Assembler

  // ----- assembling

  /** The operand values that a line gives an opcode, from operand `j` on. */
  datatype Values = Got(fs: seq<nat>) | Err(error: Error)

  function Prepend(fs: seq<nat>, r: Values): Values {
    if r.Err? then r else Got(fs + r.fs)
  }

  function ReadValues(sprs: seq<SprInfo>, memaddr: nat, op: Opcode, j: nat, words: seq<string>): (r: Values)
    requires j <= |op.operands| && forall i :: 0 <= i < |op.operands| ==> 0 < op.operands[i].bits
    decreases |op.operands| - j
  {
    if j == |op.operands| then Got([])
    else
      var o := op.operands[j];
      if o.kind.Silent? then Prepend([ValueOf(op.opcode, o)], ReadValues(sprs, memaddr, op, j + 1, words))
      else if words == [] then Err(NumOperands)
      else
        match ParseOperand(sprs, memaddr, op, o, words[0])
        case Bad(e) => Err(e)
        case Field(f) => Prepend([f], ReadValues(sprs, memaddr, op, j + 1, words[1..]))
  }

  /** With the first `n` operands read, their values are `fs` and the others
      are still as in the opcode. */
  ghost predicate Filled(op: Opcode, w: nat, fs: seq<nat>) {
    && |fs| <= |op.operands|
    && (forall j :: 0 <= j < |fs| ==> ValueOf(w, op.operands[j]) == fs[j])
    && (forall j :: |fs| <= j < |op.operands| ==> ValueOf(w, op.operands[j]) == ValueOf(op.opcode, op.operands[j]))
    && And(w, op.mask) == op.opcode
    && NoStray(op, w)
  }

  lemma OpcodeFilled(op: Opcode)
    requires WellFormed(op)
    ensures Filled(op, op.opcode, [])
  {
    forall k: nat | Bit(op.opcode, k) ensures Placed(op, k) {
      BitOfAnd(op.opcode, op.mask, k);
    }
  }

  lemma SilentFilled(op: Opcode, w: nat, fs: seq<nat>)
    requires Filled(op, w, fs) && |fs| < |op.operands|
    ensures Filled(op, w, fs + [ValueOf(op.opcode, op.operands[|fs|])])
  {
  }

  lemma InsertedStrays(op: Opcode, w: nat, n: nat, f: nat)
    requires n < |op.operands| && NoStray(op, w) && f == Low(f, op.operands[n].bits)
    ensures NoStray(op, Or(w, Shl(f, op.operands[n].shift)))
  {
    var o := op.operands[n];
    forall k: nat | Bit(Or(w, Shl(f, o.shift)), k) ensures Placed(op, k) {
      BitOfOr(w, Shl(f, o.shift), k);
      if !Bit(w, k) {
        BitOfShl(f, o.shift, k);
        BitOfLow(f, o.bits, k - o.shift);
        assert InField(op.operands[n], k);
      }
    }
  }

  lemma InsertedElsewhere(op: Opcode, w: nat, n: nat, f: nat, j: nat)
    requires WellFormed(op) && n < |op.operands| && j < |op.operands| && j != n && f == Low(f, op.operands[n].bits)
    ensures ValueOf(Or(w, Shl(f, op.operands[n].shift)), op.operands[j]) == ValueOf(w, op.operands[j])
  {
    var o, p := op.operands[n], op.operands[j];
    assert Disjoint(op.operands[if n < j then n else j], op.operands[if n < j then j else n]);
    ExtractElsewhere(w, f, o.shift, o.bits, p.shift, p.bits);
  }

  /** Or-ing an operand into place fills it and disturbs nothing. */
  lemma OperandFilled(op: Opcode, w: nat, fs: seq<nat>, f: nat)
    requires WellFormed(op) && Filled(op, w, fs) && |fs| < |op.operands|
    requires !op.operands[|fs|].kind.Silent? && f == Low(f, op.operands[|fs|].bits)
    ensures Filled(op, Or(w, Shl(f, op.operands[|fs|].shift)), fs + [f])
  {
    var n := |fs|;
    var o := op.operands[n];
    var v := Or(w, Shl(f, o.shift));
    assert ClearOf(op, op.operands[n]);
    ExtractInserted(w, f, o.shift, o.bits);
    MaskedInserted(w, f, o.shift, o.bits, op.mask);
    InsertedStrays(op, w, n, f);
    forall j | 0 <= j < |op.operands| && j != n ensures ValueOf(v, op.operands[j]) == ValueOf(w, op.operands[j]) {
      InsertedElsewhere(op, w, n, f, j);
    }
  }

  lemma ParsedIsLow(sprs: seq<SprInfo>, memaddr: nat, op: Opcode, o: Operand, s: string)
    requires 0 < o.bits
    ensures var p := ParseOperand(sprs, memaddr, op, o, s); p.Field? ==> p.f == Low(p.f, o.bits)
  {
    match o.kind
    case Address =>
      var d := Signed(ReadNumber(s) - Base(op, memaddr));
      PackedAddress(d, o.bits);
      LowOfSmall(PackAddress(d, o.bits), o.bits);
    case Register => LowOfLow(RegisterNumber(s), o.bits);
    case Spr => LowOfLow(SprValue(sprs, s), o.bits);
    case Tbr => LowOfLow(TbrValue(s), o.bits);
    case _ => LowOfLow(ReadNumber(s), o.bits);
  }

  datatype Assembly = Blank | Assembled(entry: nat, instr: nat) | Failed(error: Error)

  /** `find_opcode_by_name`. */
  method FindOpcodeByName(table: seq<Opcode>, name: string) returns (k: nat)
    ensures k <= |table| && (k < |table| ==> table[k].name == Lower(name))
    ensures forall i :: 0 <= i < k ==> table[i].name != Lower(name)
  {
    var folded := Lower(name);
    for i := 0 to |table|
      invariant forall j :: 0 <= j < i ==> table[j].name != folded
    {
      if table[i].name == folded { return i; }
    }
    return |table|;
  }

  /** Entry `k` is the one that a mnemonic names. */
  ghost predicate Names(table: seq<Opcode>, k: nat, name: string) {
    k < |table| && table[k].name == Lower(name) && forall i :: 0 <= i < k ==> table[i].name != Lower(name)
  }

  ghost predicate GoodTable(table: seq<Opcode>) {
    forall k :: 0 <= k < |table| ==> WellFormed(table[k])
  }

  /** `asmppc`: the word it returns holds the opcode, in every operand the value
      that the line gives it, and nothing else; it fails exactly on an unknown
      mnemonic, with too few words, or at the first operand that does not parse. */
  method AsmPpc(table: seq<Opcode>, sprs: seq<SprInfo>, memaddr: nat, line: string) returns (r: Assembly)
    requires GoodTable(table)
    ensures r.Blank? <==> Words(line) == []
    ensures r.Assembled? ==>
              Names(table, r.entry, Words(line)[0]) &&
              var v := ReadValues(sprs, memaddr, table[r.entry], 0, Words(line)[1..]);
              v.Got? && Encodes(table[r.entry], r.instr, v.fs)
    ensures r.Failed? ==>
              if forall i :: 0 <= i < |table| ==> table[i].name != Lower(Words(line)[0]) then r.error == BadOpcode
              else exists k: nat :: Names(table, k, Words(line)[0]) && ReadValues(sprs, memaddr, table[k], 0, Words(line)[1..]) == Err(r.error)
  {
    assert line[0..] == line;
    var name, pos := NextWord(line, 0);
    if name == "" { return Blank; }
    var k := FindOpcodeByName(table, name);
    if k == |table| { return Failed(BadOpcode); }
    assert Names(table, k, name);
    var instr := AsmOperands(sprs, memaddr, table[k], line, pos);
    r := match instr case Packed(w) => Assembled(k, w) case Stopped(e) => Failed(e);
  }

  datatype Packing = Packed(instr: nat) | Stopped(error: Error)

  /** Reads the operands of an opcode from the rest of the line. */
  method AsmOperands(sprs: seq<SprInfo>, memaddr: nat, op: Opcode, line: string, from: nat) returns (r: Packing)
    requires WellFormed(op) && from <= |line|
    ensures match ReadValues(sprs, memaddr, op, 0, Words(line[from..]))
            case Got(fs) => r.Packed? && Encodes(op, r.instr, fs)
            case Err(e) => r == Stopped(e)
  {
    var instr: nat, n: nat, pos: nat := op.opcode, 0, from;
    ghost var fs: seq<nat>, words := [], Words(line[from..]);
    ghost var all := ReadValues(sprs, memaddr, op, 0, words);
    OpcodeFilled(op);
    while n < |op.operands|
      invariant n == |fs| <= |op.operands| && pos <= |line| && words == Words(line[pos..])
      invariant Filled(op, instr, fs)
      invariant all == Prepend(fs, ReadValues(sprs, memaddr, op, n, words))
    {
      var o := op.operands[n];
      if o.kind.Silent? {
        PassSilent(sprs, memaddr, op, instr, fs, words);
        fs := fs + [ValueOf(op.opcode, o)];
        n := n + 1;
        continue;
      }
      var step;
      step, pos, fs, words := ReadOperand(sprs, memaddr, op, n, instr, line, pos, fs, words, all);
      if step.Stopped? { return step; }
      instr, n := step.instr, n + 1;
    }
    AllRead(sprs, memaddr, op, instr, fs, words);
    return Packed(instr);
  }

  /** A silent operand takes no word and its value from the opcode. */
  lemma PassSilent(sprs: seq<SprInfo>, memaddr: nat, op: Opcode, w: nat, fs: seq<nat>, words: seq<string>)
    requires WellFormed(op) && |fs| < |op.operands| && op.operands[|fs|].kind.Silent? && Filled(op, w, fs)
    ensures var gs := fs + [ValueOf(op.opcode, op.operands[|fs|])];
            && Filled(op, w, gs)
            && Prepend(fs, ReadValues(sprs, memaddr, op, |fs|, words)) == Prepend(gs, ReadValues(sprs, memaddr, op, |gs|, words))
  {
    SilentFilled(op, w, fs);
    ReadSilent(sprs, memaddr, op, fs, words);
  }

  lemma AllRead(sprs: seq<SprInfo>, memaddr: nat, op: Opcode, w: nat, fs: seq<nat>, words: seq<string>)
    requires WellFormed(op) && |fs| == |op.operands| && Filled(op, w, fs)
    ensures Prepend(fs, ReadValues(sprs, memaddr, op, |fs|, words)) == Got(fs) && Encodes(op, w, fs)
  {
    assert fs + [] == fs;
  }

  /** Reads one operand that is not silent. */
  method ReadOperand(sprs: seq<SprInfo>, memaddr: nat, op: Opcode, n: nat, instr: nat, line: string, from: nat,
                     ghost fs: seq<nat>, ghost words: seq<string>, ghost all: Values)
      returns (step: Packing, pos: nat, ghost fs': seq<nat>, ghost words': seq<string>)
    requires WellFormed(op) && n == |fs| < |op.operands| && !op.operands[n].kind.Silent?
    requires from <= |line| && words == Words(line[from..]) && Filled(op, instr, fs)
    requires all == Prepend(fs, ReadValues(sprs, memaddr, op, n, words))
    ensures step.Stopped? ==> all == Err(step.error)
    ensures step.Packed? ==>
      && pos <= |line| && words' == Words(line[pos..]) && |fs'| == n + 1 && Filled(op, step.instr, fs')
      && all == Prepend(fs', ReadValues(sprs, memaddr, op, n + 1, words'))
  {
    var o := op.operands[n];
    var word;
    word, pos := NextWord(line, from);
    fs', words' := fs, words;
    if word == "" { return Stopped(NumOperands), pos, fs, words; }
    words' := words[1..];
    ReadSpoken(sprs, memaddr, op, fs, words, word, words');
    match ParseOperand(sprs, memaddr, op, o, word)
    case Bad(e) => step := Stopped(e);
    case Field(f) =>
      OperandFilled(op, instr, fs, f);
      fs' := fs + [f];
      step := Packed(Or(instr, Shl(f, o.shift)));
  }

  lemma ReadSilent(sprs: seq<SprInfo>, memaddr: nat, op: Opcode, fs: seq<nat>, words: seq<string>)
    requires WellFormed(op) && |fs| < |op.operands| && op.operands[|fs|].kind.Silent?
    ensures Prepend(fs, ReadValues(sprs, memaddr, op, |fs|, words)) ==
            Prepend(fs + [ValueOf(op.opcode, op.operands[|fs|])], ReadValues(sprs, memaddr, op, |fs| + 1, words))
  {
    PrependTwice(fs, ValueOf(op.opcode, op.operands[|fs|]), ReadValues(sprs, memaddr, op, |fs| + 1, words));
  }

  lemma ReadSpoken(sprs: seq<SprInfo>, memaddr: nat, op: Opcode, fs: seq<nat>, words: seq<string>, word: string, rest: seq<string>)
    requires WellFormed(op) && |fs| < |op.operands| && !op.operands[|fs|].kind.Silent? && words == [word] + rest
    ensures var o := op.operands[|fs|];
            match ParseOperand(sprs, memaddr, op, o, word)
            case Bad(e) => ReadValues(sprs, memaddr, op, |fs|, words) == Err(e)
            case Field(f) =>
              && f == Low(f, o.bits)
              && Prepend(fs, ReadValues(sprs, memaddr, op, |fs|, words)) == Prepend(fs + [f], ReadValues(sprs, memaddr, op, |fs| + 1, rest))
  {
    var o := op.operands[|fs|];
    assert words[1..] == rest;
    ParsedIsLow(sprs, memaddr, op, o, word);
    match ParseOperand(sprs, memaddr, op, o, word)
    case Bad(_) =>
    case Field(f) => PrependTwice(fs, f, ReadValues(sprs, memaddr, op, |fs| + 1, rest));
  }

  lemma PrependTwice(fs: seq<nat>, f: nat, r: Values)
    ensures Prepend(fs, Prepend([f], r)) == Prepend(fs + [f], r)
  {
    if r.Got? { assert fs + ([f] + r.fs) == fs + [f] + r.fs; }
  }

  // ----- finding the opcode of a word

  predicate Matches(op: Opcode, w: nat) {
    And(w, op.mask) == op.opcode
  }

  /** The order of the opcode table: by primary opcode, the top six bits, which
      every mask covers, and under one primary opcode by number with one mask. */
  predicate Precedes(a: Opcode, b: Opcode) {
    Shr(a.opcode, 26) < Shr(b.opcode, 26) || (a.mask == b.mask && a.opcode < b.opcode)
  }

  ghost predicate Ordered(table: seq<Opcode>) {
    && (forall i :: 0 <= i < |table| ==> Shr(table[i].mask, 26) == 63)
    && (forall i, j :: 0 <= i < j < |table| ==> Precedes(table[i], table[j]))
  }

  lemma {:induction false} AndOnes(x: nat, b: nat)
    requires x < Pow2(b)
    ensures And(x, Pow2(b) - 1) == x
    decreases b
  {
    if b > 0 && x > 0 {
      Pow2Positive(b - 1);
      AndOnes(x / 2, b - 1);
      assert (Pow2(b) - 1) / 2 == Pow2(b - 1) - 1 && (Pow2(b) - 1) % 2 == 1;
    }
  }

  lemma {:induction false} ShrBound(w: nat, s: nat, b: nat)
    requires w < Pow2(s + b)
    ensures Shr(w, s) < Pow2(b)
    decreases s
  {
    if s > 0 { ShrBound(w / 2, s - 1, b); }
  }

  lemma PrimaryKept(w: nat, mask: nat)
    requires w < WORD && Shr(mask, 26) == 63
    ensures Shr(And(w, mask), 26) == Shr(w, 26)
  {
    Word32();
    ShrBound(w, 26, 6);
    assert Pow2(6) == 64;
    ShrOfAnd(w, mask, 26);
    AndOnes(Shr(w, 26), 6);
  }

  lemma Word32()
    ensures Pow2(32) == WORD
  {
    PowersOf2();
    Pow2Add(30, 2);
  }

  /** A word that matches an entry compares greater with every entry before it
      and less with every entry after it. */
  lemma MatchDirects(table: seq<Opcode>, w: nat, i: nat, j: nat)
    requires Ordered(table) && w < WORD && i < j < |table|
    ensures Matches(table[j], w) ==> And(w, table[i].mask) > table[i].opcode
    ensures Matches(table[i], w) ==> And(w, table[j].mask) < table[j].opcode
  {
    var a, b := table[i], table[j];
    assert Precedes(table[i], table[j]);
    PrimaryKept(w, a.mask);
    PrimaryKept(w, b.mask);
    if Shr(a.opcode, 26) < Shr(b.opcode, 26) {
      if Matches(b, w) { ShrMonotone(a.opcode, And(w, a.mask), 26); }
      if Matches(a, w) { ShrMonotone(And(w, b.mask), b.opcode, 26); }
    }
  }

  /** `find_opcode`: the binary search finds the entry that a word matches. */
  method FindOpcode(table: seq<Opcode>, w: nat) returns (k: nat)
    requires Ordered(table) && w < WORD
    ensures k <= |table|
    ensures k < |table| ==> forall i :: 0 <= i < |table| ==> (Matches(table[i], w) <==> i == k)
    ensures k == |table| ==> forall i :: 0 <= i < |table| ==> !Matches(table[i], w)
  {
    var top, bottom := 0, |table| - 1;
    while top <= bottom
      invariant 0 <= top && bottom < |table|
      invariant forall i :: 0 <= i < |table| && (i < top || bottom < i) ==> !Matches(table[i], w)
      decreases bottom - top + 1
    {
      var idx := (top + bottom) / 2;
      forall i | 0 <= i < idx ensures Matches(table[i], w) ==> And(w, table[idx].mask) < table[idx].opcode {
        MatchDirects(table, w, i, idx);
      }
      forall i | idx < i < |table| ensures Matches(table[i], w) ==> And(w, table[idx].mask) > table[idx].opcode {
        MatchDirects(table, w, idx, i);
      }
      var masked := And(w, table[idx].mask);
      if masked < table[idx].opcode {
        bottom := idx - 1;
      } else if masked > table[idx].opcode {
        top := idx + 1;
      } else {
        return idx;
      }
    }
    return |table|;
  }

  lemma {:induction false} BoundedBits(w: nat, b: nat)
    requires forall k: nat :: b <= k ==> !Bit(w, k)
    ensures w < Pow2(b)
    decreases b, w
  {
    if b > 0 {
      forall k: nat | b - 1 <= k ensures !Bit(w / 2, k) {
        assert !Bit(w, k + 1);
      }
      BoundedBits(w / 2, b - 1);
    } else if w > 0 {
      assert !Bit(w, 0);
      forall k: nat ensures !Bit(w / 2, k) {
        assert !Bit(w, k + 1);
      }
      BoundedBits(w / 2, 0);
    }
  }

  lemma {:induction false} HighBits(w: nat, b: nat, k: nat)
    requires w < Pow2(b) && b <= k
    ensures !Bit(w, k)
    decreases k
  {
    if b == 0 {
      BitOfZero(k);
    } else {
      HighBits(w / 2, b - 1, k - 1);
    }
  }

  lemma EncodedIsWord(op: Opcode, w: nat)
    requires WellFormed(op) && NoStray(op, w)
    ensures w < WORD
  {
    Word32();
    forall k: nat | 32 <= k ensures !Bit(w, k) {
      HighBits(op.mask, 32, k);
    }
    BoundedBits(w, 32);
  }

  /** An assembled word is found again under the entry it was assembled from. */
  method AssembleThenFind(table: seq<Opcode>, sprs: seq<SprInfo>, memaddr: nat, line: string) returns (r: Assembly, k: nat)
    requires GoodTable(table) && Ordered(table)
    ensures r.Assembled? ==> r.instr < WORD && k == r.entry
  {
    k := 0;
    r := AsmPpc(table, sprs, memaddr, line);
    if r.Assembled? {
      EncodedIsWord(table[r.entry], r.instr);
      k := FindOpcode(table, r.instr);
    }
  }

  /** Operand `j` is the first one with identifier `field`. */
  ghost predicate FirstField(op: Opcode, field: nat, j: nat) {
    j < |op.operands| && op.operands[j].field == field && forall i :: 0 <= i < j ==> op.operands[i].field != field
  }

  /** `get_operand_value`. */
  method GetOperandValue(nOperands: nat, op: Opcode, w: nat, field: nat) returns (found: bool, value: nat)
    ensures found <==> field <= nOperands && exists j: nat :: FirstField(op, field, j)
    ensures found ==> exists j: nat :: FirstField(op, field, j) && value == ValueOf(w, op.operands[j])
  {
    if field > nOperands { return false, 0; }
    for i := 0 to |op.operands|
      invariant forall k :: 0 <= k < i ==> op.operands[k].field != field
    {
      if op.operands[i].field != field { continue; }
      assert FirstField(op, field, i);
      return true, ValueOf(w, op.operands[i]);
    }
    return false, 0;
  }
}
