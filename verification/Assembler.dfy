/** The PowerPC assembler and disassembler of the debugger: packing operands
    into an instruction word, finding the opcode of a word again and printing
    its operands.  The opcode and register tables are parameters.
 */
module Assembler {
  import opened Arithmetic
  import opened Numerals
  import opened Bits
  import opened AsmText

  const O_rA := 20

  /** How an operand is written and packed: the first hint that applies. */
  datatype Kind = Silent | Address | Register | Spr | Tbr | Offset | Plain

  datatype Operand = Operand(field: nat, bits: nat, shift: nat, kind: Kind)

  datatype Opcode = Opcode(opcode: nat, mask: nat, operands: seq<Operand>, name: string, relative: bool, ra0IsZero: bool)

  datatype SprInfo = SprInfo(number: nat, name: string)

  datatype Error = BadOpcode | NumOperands | BadRegister | BadSpr | BadTbr

  // ----- numbers and names

  /** A machine word read as a signed number. */
  function Signed(x: int): int {
    var u := x % WORD;
    if u < WORD / 2 then u else u - WORD
  }

  /** `read_number`. */
  function ReadNumber(s: string): int {
    var i := if At(s, 0) == '-' then 1 else 0;
    var v := if At(s, i) == '0' && (At(s, i + 1) == 'x' || At(s, i + 1) == 'X') then StrToUl(s, i + 2, 16).0 else StrToUl(s, i, 10).0;
    Signed(if i == 1 then -v else v)
  }

  /** `isupper`, which knows the Latin-1 letters too. */
  predicate Upper(c: char) {
    'A' <= c <= 'Z' || (192 <= c as int <= 222 && c as int != 215)
  }

  /** `downstring`. */
  function Lower(s: string): (r: string)
    ensures |r| == |s|
    ensures forall i :: 0 <= i < |s| ==> !Upper(r[i]) && (!Upper(s[i]) ==> r[i] == s[i])
  {
    if s == [] then [] else [if Upper(s[0]) then s[0] + 32 as char else s[0]] + Lower(s[1..])
  }

  /** The two five-bit halves of a register number, exchanged. */
  function HalfSwap(v: int): nat {
    v / 32 % 32 + v % 32 * 32
  }

  predicate Numeric(s: string) {
    s != "" && '0' <= s[0] <= '9'
  }

  function SprLookup(sprs: seq<SprInfo>, name: string): nat {
    if sprs == [] then 0 else if sprs[0].name == name then HalfSwap(sprs[0].number) else SprLookup(sprs[1..], name)
  }

  /** `spr_value`; 0 is the failure. */
  function SprValue(sprs: seq<SprInfo>, name: string): nat {
    if name == "" then 0 else if Numeric(name) then HalfSwap(ReadNumber(name)) else SprLookup(sprs, Lower(name))
  }

  /** The name of register `n`, or its number. */
  function SprText(sprs: seq<SprInfo>, n: nat): string {
    if sprs == [] then Digits(n, 10) else if sprs[0].number == n then sprs[0].name else SprText(sprs[1..], n)
  }

  /** `tbr_value`; 0 is the failure. */
  function TbrValue(name: string): nat {
    var n := Lower(name);
    if n == "" then 0
    else if Numeric(n) then (if ReadNumber(n) == 268 || ReadNumber(n) == 269 then HalfSwap(ReadNumber(n)) else 0)
    else if n == "tbl" then HalfSwap(268)
    else if n == "tbu" then HalfSwap(269)
    else 0
  }

  function TbrText(n: nat): string {
    if n == 268 then "TBL" else if n == 269 then "TBU" else "???"
  }

  // ----- addresses

  /** The field for a displacement: its low bits, with the sign put on top. */
  function PackAddress(d: int, bits: nat): nat
    requires 0 < bits
  {
    var low := Low(d / 4, bits - 1);
    Low(if d < 0 then Or(low, Pow2(bits - 1)) else low, bits)
  }

  /** The displacement that a field shows. */
  function ShowAddress(f: nat, bits: nat): int
    requires 0 < bits
  {
    if Bit(f, bits - 1) then 4 * (f - Pow2(bits)) else 4 * f
  }

  lemma ModHalves(w: int, p: int)
    requires 0 < p
    ensures w % (2 * p) == 2 * (w / 2 % p) + w % 2
  {
    var v, q := w / 2, w / 2 / p;
    assert w == 2 * v + w % 2 && v == q * p + v % p;
    assert 2 * (q * p) == q * (2 * p);
    DivModUnique(w, 2 * p, q, 2 * (v % p) + w % 2);
  }

  lemma {:induction false} LowIsMod(w: int, b: nat)
    ensures 0 < Pow2(b) && Low(w, b) == w % Pow2(b) < Pow2(b)
    decreases b
  {
    Pow2Positive(b);
    if b > 0 {
      LowIsMod(w / 2, b - 1);
      ModHalves(w, Pow2(b - 1));
    }
  }

  lemma {:induction false} TopBit(f: nat, b: nat)
    requires f < Pow2(b + 1)
    ensures Bit(f, b) <==> f >= Pow2(b)
    decreases b
  {
    if b > 0 { TopBit(f / 2, b - 1); }
  }

  lemma {:induction false} OrTop(low: nat, b: nat)
    requires low < Pow2(b)
    ensures Or(low, Pow2(b)) == low + Pow2(b)
    decreases b
  {
    if b > 0 && low > 0 {
      Pow2Positive(b - 1);
      OrTop(low / 2, b - 1);
      assert Pow2(b) / 2 == Pow2(b - 1);
    }
  }

  lemma LowOfSmall(f: nat, b: nat)
    requires f < Pow2(b)
    ensures Low(f, b) == f
  {
    LowIsMod(f, b);
    DivModUnique(f, Pow2(b), 0, f);
  }

  lemma PackedAddress(d: int, bits: nat)
    requires 0 < bits
    ensures var h := Pow2(bits - 1); 0 < h && PackAddress(d, bits) == d / 4 % h + if d < 0 then h else 0
    ensures PackAddress(d, bits) < Pow2(bits)
  {
    var low, h := Low(d / 4, bits - 1), Pow2(bits - 1);
    LowIsMod(d / 4, bits - 1);
    OrTop(low, bits - 1);
    LowOfSmall(if d < 0 then low + h else low, bits);
  }

  /** A displacement the field can hold. */
  predicate InReach(d: int, bits: nat)
    requires 0 < bits
  {
    d % 4 == 0 && 0 - Pow2(bits + 1) <= d < Pow2(bits + 1)
  }

  /** What a field shows, with `h` for the weight of its sign bit. */
  lemma Shown(f: nat, bits: nat) returns (h: nat, d: int)
    requires 0 < bits && f < Pow2(bits)
    ensures h == Pow2(bits - 1) > 0 && f < 2 * h && Pow2(bits + 1) == 4 * h
    ensures d == ShowAddress(f, bits) == if f >= h then 4 * (f - 2 * h) else 4 * f
  {
    h, d := Pow2(bits - 1), ShowAddress(f, bits);
    Pow2Positive(bits - 1);
    TopBit(f, bits - 1);
  }

  lemma ShowReaches(f: nat, bits: nat)
    requires 0 < bits && f < Pow2(bits)
    ensures InReach(ShowAddress(f, bits), bits)
  {
    var h, d := Shown(f, bits);
    FourTimes(if f >= h then f - 2 * h else f, h);
  }

  lemma FourTimes(x: int, h: nat)
    requires 0 - h <= x < h
    ensures (4 * x) % 4 == 0 && 0 - 4 * h <= 4 * x < 4 * h
  {
  }

  /** What a field shows is packed into the same field. */
  lemma ShowPack(f: nat, bits: nat)
    requires 0 < bits && f < Pow2(bits)
    ensures PackAddress(ShowAddress(f, bits), bits) == f && InReach(ShowAddress(f, bits), bits)
  {
    var h, d := Shown(f, bits);
    assert d / 4 % h + (if d < 0 then h else 0) == f by { Unfolded(f, h, d); }
    assert PackAddress(d, bits) == f by { PackedAddress(d, bits); }
    ShowReaches(f, bits);
  }

  lemma Unfolded(f: nat, h: nat, d: int)
    requires f < 2 * h && d == if f >= h then 4 * (f - 2 * h) else 4 * f
    ensures d / 4 % h + (if d < 0 then h else 0) == f
  {
    if f >= h { DivModUnique(f - 2 * h, h, -1, f - h); } else { DivModUnique(f, h, 0, f); }
  }

  lemma ShownInReach(d: int, bits: nat)
    requires 0 < bits && InReach(d, bits)
    ensures ShowAddress(PackAddress(d, bits), bits) == d
  {
    var h, q := Pow2(bits - 1), d / 4;
    PackedAddress(d, bits);
    TopBit(PackAddress(d, bits), bits - 1);
    assert Pow2(bits + 1) == 4 * h && -h <= q < h;
    if d < 0 { DivModUnique(q, h, -1, q + h); } else { DivModUnique(q, h, 0, q); }
  }

  /** A packed displacement is shown again if and only if the field can hold it. */
  lemma PackShowIff(d: int, bits: nat)
    requires 0 < bits
    ensures ShowAddress(PackAddress(d, bits), bits) == d <==> InReach(d, bits)
  {
    PackedAddress(d, bits);
    ShowPack(PackAddress(d, bits), bits);
    if InReach(d, bits) { ShownInReach(d, bits); }
  }

  // ----- one operand

  datatype Parse = Field(f: nat) | Bad(error: Error)

  function RegisterNumber(s: string): int {
    if At(s, 0) == 'r' || At(s, 0) == 'R' then ReadNumber(s[1..])
    else if At(s, 0) == '%' && (At(s, 1) == 'r' || At(s, 1) == 'R') then ReadNumber(s[2..])
    else ReadNumber(s)
  }

  function Base(op: Opcode, memaddr: nat): nat {
    if op.relative then memaddr else 0
  }

  /** `parse_operand`, before the shift into place. */
  function ParseOperand(sprs: seq<SprInfo>, memaddr: nat, op: Opcode, o: Operand, s: string): Parse
    requires 0 < o.bits
  {
    match o.kind
    case Address => Field(PackAddress(Signed(ReadNumber(s) - Base(op, memaddr)), o.bits))
    case Register => if RegisterNumber(s) > 31 then Bad(BadRegister) else Field(Low(RegisterNumber(s), o.bits))
    case Spr => if SprValue(sprs, s) == 0 then Bad(BadSpr) else Field(Low(SprValue(sprs, s), o.bits))
    case Tbr => if TbrValue(s) == 0 then Bad(BadTbr) else Field(Low(TbrValue(s), o.bits))
    case _ => Field(Low(ReadNumber(s), o.bits))
  }

  /** The text that `print_operands` gives field value `f`. */
  function PrintOperand(sprs: seq<SprInfo>, memaddr: nat, op: Opcode, o: Operand, f: nat): string
    requires 0 < o.bits
  {
    match o.kind
    case Address => "0x" + Digits((ShowAddress(f, o.bits) + Base(op, memaddr)) % WORD, 16)
    case Register => if f == 0 && o.field == O_rA && op.ra0IsZero then "0" else "r" + Digits(f, 10)
    case Spr => SprText(sprs, HalfSwap(f))
    case Tbr => TbrText(HalfSwap(f))
    case _ => "0x" + Digits(f % 0x1_0000, 16)
  }

  /** The numbers of bits that the tables give the kinds of operand. */
  predicate Shaped(o: Operand) {
    && 0 < o.bits <= 29
    && o.bits + o.shift <= 32
    && (o.kind.Register? ==> o.bits == 5)
    && (o.kind.Spr? || o.kind.Tbr? ==> o.bits == 10)
    && (o.kind.Plain? || o.kind.Offset? ==> o.bits <= 16)
  }

  lemma ReadHex(v: nat)
    requires v < WORD
    ensures ReadNumber("0x" + Digits(v, 16)) == Signed(v)
  {
    var s := "0x" + Digits(v, 16);
    assert s + "" == s;
    ReadHexThen(v, s, "");
  }

  /** A number is read up to the first character that does not belong to it. */
  lemma ReadHexThen(v: nat, s: string, tail: string)
    requires v < WORD && s == "0x" + Digits(v, 16)
    requires tail != "" ==> DigitValue(tail[0]) < 0 && tail[0] != 'x'
    ensures ReadNumber(s + tail) == Signed(v)
  {
    var d, t := Digits(v, 16), s + tail;
    assert t[2..2 + |d|] == d;
    assert StrToUl(t, 2, 16) == (v, 2 + |d|) by { ReadsBack(t, 2, v, 16); }
    assert t[0] == '0' && t[1] == 'x';
  }

  lemma ReadDecimal(v: nat)
    requires v < WORD / 2
    ensures ReadNumber(Digits(v, 10)) == v && Numeric(Digits(v, 10))
  {
    var d := Digits(v, 10);
    assert d[0..|d|] == d;
    ReadsBack(d, 0, v, 10);
    FirstDigit(v, 10);
    DecimalDigits(v);
    assert v == 0 ==> |d| == 1;
  }

  lemma {:induction false} DecimalDigits(v: nat)
    ensures forall i :: 0 <= i < |Digits(v, 10)| ==> '0' <= Digits(v, 10)[i] <= '9'
    decreases v
  {
    if v >= 10 { DecimalDigits(v / 10); }
  }

  /** Every name in the register table begins with a capital letter and is one word. */
  predicate Capitals(sprs: seq<SprInfo>) {
    forall i :: 0 <= i < |sprs| ==> sprs[i].name != "" && Upper(sprs[i].name[0]) && Solid(sprs[i].name)
  }

  predicate Named(sprs: seq<SprInfo>, n: nat) {
    exists i :: 0 <= i < |sprs| && sprs[i].number == n
  }

  /** Names are folded to lower case before the search, so no capitalised name
      is ever found. */
  lemma {:induction false} CapitalsNotFound(sprs: seq<SprInfo>, name: string)
    requires Capitals(sprs)
    ensures SprLookup(sprs, Lower(name)) == 0
    decreases |sprs|
  {
    if sprs != [] {
      CapitalsNotFound(sprs[1..], name);
      assert Lower(name) != "" ==> !Upper(Lower(name)[0]);
    }
  }

  lemma {:induction false} SprTextOf(sprs: seq<SprInfo>, n: nat)
    requires Capitals(sprs)
    ensures if Named(sprs, n) then SprText(sprs, n) != "" && Upper(SprText(sprs, n)[0]) else SprText(sprs, n) == Digits(n, 10)
    decreases |sprs|
  {
    if sprs != [] {
      SprTextOf(sprs[1..], n);
      if Named(sprs, n) && sprs[0].number != n {
        var i :| 0 <= i < |sprs| && sprs[i].number == n;
        assert sprs[1..][i - 1].number == n;
      }
      if Named(sprs[1..], n) {
        var i :| 0 <= i < |sprs[1..]| && sprs[1..][i].number == n;
        assert sprs[i + 1].number == n;
      }
    }
  }

  /** A field value whose printed form the assembler takes back. */
  predicate Legible(sprs: seq<SprInfo>, o: Operand, f: nat) {
    match o.kind
    case Spr => f != 0 && !Named(sprs, HalfSwap(f))
    case Tbr => HalfSwap(f) == 268 || HalfSwap(f) == 269
    case _ => true
  }

  lemma SprReadsBack(sprs: seq<SprInfo>, f: nat)
    requires f < 1024 && Capitals(sprs)
    ensures SprValue(sprs, SprText(sprs, HalfSwap(f))) == if Named(sprs, HalfSwap(f)) then 0 else f
  {
    var n := HalfSwap(f);
    SprTextOf(sprs, n);
    if Named(sprs, n) {
      CapitalsNotFound(sprs, SprText(sprs, n));
    } else {
      SwapTwice(f);
      ReadDecimal(n);
    }
  }

  lemma SwapTwice(f: nat)
    requires f < 1024
    ensures HalfSwap(f) < 1024 && HalfSwap(HalfSwap(f)) == f
  {
  }

  lemma TbrReadsBack(f: nat)
    requires f < 1024
    ensures TbrValue(TbrText(HalfSwap(f))) == if HalfSwap(f) == 268 || HalfSwap(f) == 269 then f else 0
  {
    assert Lower("TBL") == "tbl" && Lower("TBU") == "tbu" && Lower("???") == "???";
  }

  lemma ReachIsSmall(d: int, bits: nat)
    requires 0 < bits <= 29 && InReach(d, bits)
    ensures -0x4000_0000 <= d < 0x4000_0000
  {
    SmallPower(bits + 1);
  }

  lemma AddressPacksBack(f: nat, bits: nat, base: nat, t: nat)
    requires 0 < bits <= 29 && f < Pow2(bits) && t == (ShowAddress(f, bits) + base) % WORD
    ensures PackAddress(Signed(Signed(t) - base), bits) == f
  {
    var d := ShowAddress(f, bits);
    assert PackAddress(d, bits) == f && -0x4000_0000 <= d < 0x4000_0000 by {
      ShowPack(f, bits);
      ReachIsSmall(d, bits);
    }
    assert Signed(Signed(t) - base) == d by { SignedBack(d, base); }
  }

  lemma AddressReadsBack(sprs: seq<SprInfo>, memaddr: nat, op: Opcode, o: Operand, f: nat)
    requires Shaped(o) && o.kind.Address? && f < Pow2(o.bits)
    ensures ParsesBack(sprs, memaddr, op, o, f)
  {
    var t := (ShowAddress(f, o.bits) + Base(op, memaddr)) % WORD;
    var s := PrintOperand(sprs, memaddr, op, o, f);
    assert s == "0x" + Digits(t, 16);
    assert PackAddress(Signed(Signed(t) - Base(op, memaddr)), o.bits) == f by { AddressPacksBack(f, o.bits, Base(op, memaddr), t); }
    assert ParseOperand(sprs, memaddr, op, o, s) == Field(f) by { AddressParsed(sprs, memaddr, op, o, s, t); }
  }

  lemma AddressParsed(sprs: seq<SprInfo>, memaddr: nat, op: Opcode, o: Operand, s: string, t: nat)
    requires 0 < o.bits && o.kind.Address? && t < WORD && s == "0x" + Digits(t, 16)
    ensures ParseOperand(sprs, memaddr, op, o, s) == Field(PackAddress(Signed(Signed(t) - Base(op, memaddr)), o.bits))
  {
    ReadHex(t);
  }

  lemma SignedBack(d: int, base: nat)
    requires -0x8000_0000 <= d < 0x8000_0000
    ensures Signed(Signed((d + base) % WORD) - base) == d
  {
  }

  lemma PowersOf2()
    ensures Pow2(5) == 32 && Pow2(10) == 1024 && Pow2(16) == 0x1_0000 && Pow2(30) == 0x4000_0000
  {
    assert Pow2(5) == 32;
    Pow2Add(5, 5);
    Pow2Add(10, 5);
    Pow2Add(15, 1);
    Pow2Add(15, 15);
  }

  lemma SmallPower(b: nat)
    requires b <= 30
    ensures 0 < Pow2(b) <= 0x4000_0000
  {
    PowersOf2();
    if b < 30 { Pow2Increases(b, 30); }
  }

  /** The assembler takes back what the disassembler prints for `f`. */
  predicate ParsesBack(sprs: seq<SprInfo>, memaddr: nat, op: Opcode, o: Operand, f: nat)
    requires 0 < o.bits
  {
    ParseOperand(sprs, memaddr, op, o, PrintOperand(sprs, memaddr, op, o, f)) == Field(f)
  }

  predicate ParsesBad(sprs: seq<SprInfo>, memaddr: nat, op: Opcode, o: Operand, f: nat)
    requires 0 < o.bits
  {
    ParseOperand(sprs, memaddr, op, o, PrintOperand(sprs, memaddr, op, o, f)).Bad?
  }

  lemma RegisterReadsBack(sprs: seq<SprInfo>, memaddr: nat, op: Opcode, o: Operand, f: nat)
    requires Shaped(o) && o.kind.Register? && f < Pow2(o.bits)
    ensures ParsesBack(sprs, memaddr, op, o, f)
  {
    LowOfSmall(f, o.bits);
    PrintedRegister(f);
  }

  lemma HalfWord(f: nat)
    requires f < 0x1_0000
    ensures f % 0x1_0000 == f && Signed(f) == f
  {
  }

  lemma PlainReadsBack(sprs: seq<SprInfo>, memaddr: nat, op: Opcode, o: Operand, f: nat)
    requires Shaped(o) && (o.kind.Plain? || o.kind.Offset?) && f < Pow2(o.bits)
    ensures ParsesBack(sprs, memaddr, op, o, f)
  {
    var s := PrintOperand(sprs, memaddr, op, o, f);
    assert f % 0x1_0000 == f && Signed(f) == f by {
      SmallField(o.bits, f);
      HalfWord(f);
    }
    assert ReadNumber(s) == f by { ReadHex(f % 0x1_0000); }
    assert Low(f, o.bits) == f by { LowOfSmall(f, o.bits); }
  }

  lemma SprParsesIff(sprs: seq<SprInfo>, memaddr: nat, op: Opcode, o: Operand, f: nat)
    requires Shaped(o) && o.kind.Spr? && f < Pow2(o.bits) && Capitals(sprs)
    ensures if Legible(sprs, o, f) then ParsesBack(sprs, memaddr, op, o, f) else ParsesBad(sprs, memaddr, op, o, f)
  {
    LowOfSmall(f, o.bits);
    PowersOf2();
    SprReadsBack(sprs, f);
  }

  lemma TbrParsesIff(sprs: seq<SprInfo>, memaddr: nat, op: Opcode, o: Operand, f: nat)
    requires Shaped(o) && o.kind.Tbr? && f < Pow2(o.bits)
    ensures if Legible(sprs, o, f) then ParsesBack(sprs, memaddr, op, o, f) else ParsesBad(sprs, memaddr, op, o, f)
  {
    LowOfSmall(f, o.bits);
    PowersOf2();
    TbrReadsBack(f);
  }

  /** What the disassembler prints for an operand is parsed to the same field if
      and only if the operand is legible: registers with a name, special
      register 0 and time base registers other than 268 and 269 are not, and
      are refused. */
  lemma PrintedParsesIff(sprs: seq<SprInfo>, memaddr: nat, op: Opcode, o: Operand, f: nat)
    requires Shaped(o) && !o.kind.Silent? && f < Pow2(o.bits) && Capitals(sprs)
    ensures ParsesBack(sprs, memaddr, op, o, f) <==> Legible(sprs, o, f)
    ensures ParsesBad(sprs, memaddr, op, o, f) <==> !Legible(sprs, o, f)
  {
    match o.kind
    case Address => AddressReadsBack(sprs, memaddr, op, o, f);
    case Register => RegisterReadsBack(sprs, memaddr, op, o, f);
    case Spr => SprParsesIff(sprs, memaddr, op, o, f);
    case Tbr => TbrParsesIff(sprs, memaddr, op, o, f);
    case _ => PlainReadsBack(sprs, memaddr, op, o, f);
  }

  lemma PrintedRegister(f: nat)
    requires f < Pow2(5)
    ensures RegisterNumber("r" + Digits(f, 10)) == f <= 31 && RegisterNumber("0") == 0
  {
    PowersOf2();
    ReadDecimal(f);
    ReadDecimal(0);
    assert ("r" + Digits(f, 10))[1..] == Digits(f, 10);
  }

  lemma SmallField(b: nat, f: nat)
    requires b <= 16 && f < Pow2(b)
    ensures f < 0x1_0000
  {
    if b < 16 { Pow2Increases(b, 16); }
    PowersOf2();
  }

  lemma SignedCongruent(x: int, y: int, base: nat)
    requires -0x8000_0000 <= y < 0x8000_0000 && 0 <= x < WORD
    ensures (y + base) % WORD == x <==> y == Signed(Signed(x) - base)
  {
  }

  /** The target shown for an assembled address is the one given if and only if
      its distance is a multiple of four within the field's reach. */
  lemma TargetShownIff(target: nat, base: nat, bits: nat)
    requires target < WORD && 0 < bits <= 29
    ensures var d := Signed(Signed(target) - base);
            (ShowAddress(PackAddress(d, bits), bits) + base) % WORD == target <==> InReach(d, bits)
  {
    var d := Signed(Signed(target) - base);
    var f := PackAddress(d, bits);
    var shown := ShowAddress(f, bits);
    PackShowIff(d, bits);
    assert -0x4000_0000 <= shown < 0x4000_0000 by {
      PackedAddress(d, bits);
      ShowPack(f, bits);
      ReachIsSmall(shown, bits);
    }
    SignedCongruent(target, shown, base);
  }

  /** A number is kept whole by a field if and only if it is in range. */
  lemma NumberKeptIff(v: int, bits: nat)
    ensures Low(v, bits) == v <==> 0 <= v < Pow2(bits)
  {
    LowIsMod(v, bits);
    if 0 <= v < Pow2(bits) { LowOfSmall(v, bits); }
  }

  // ----- an instruction

  /** An opcode whose operands keep clear of each other and of the opcode bits,
      to which the silent ones belong. */
  ghost predicate WellFormed(op: Opcode) {
    && And(op.opcode, op.mask) == op.opcode
    && op.mask < WORD
    && (forall i :: 0 <= i < |op.operands| ==> Shaped(op.operands[i]) && ClearOf(op, op.operands[i]))
    && (forall i, j :: 0 <= i < j < |op.operands| ==> Disjoint(op.operands[i], op.operands[j]))
  }

  ghost predicate ClearOf(op: Opcode, o: Operand) {
    if o.kind.Silent? then forall k: nat :: InField(o, k) ==> Bit(op.mask, k)
    else Extract(op.opcode, o.shift, o.bits) == 0 && Extract(op.mask, o.shift, o.bits) == 0
  }

  predicate Disjoint(o: Operand, p: Operand) {
    Apart(o.shift, o.bits, p.shift, p.bits)
  }

  /** The value of an operand in a word, as `get_operand_value` and
      `print_operands` take it out. */
  function ValueOf(w: nat, o: Operand): nat {
    Extract(w, o.shift, o.bits)
  }

  predicate InField(o: Operand, k: nat) {
    o.shift <= k < o.shift + o.bits
  }

  ghost predicate Placed(op: Opcode, k: nat) {
    Bit(op.mask, k) || exists j :: 0 <= j < |op.operands| && InField(op.operands[j], k)
  }

  /** No bit is set outside the opcode mask and the operands. */
  ghost predicate NoStray(op: Opcode, w: nat) {
    forall k: nat :: Bit(w, k) ==> Placed(op, k)
  }

  /** `w` is opcode `op` with operand values `fs`. */
  ghost predicate Encodes(op: Opcode, w: nat, fs: seq<nat>) {
    && |fs| == |op.operands|
    && (forall j :: 0 <= j < |fs| ==> ValueOf(w, op.operands[j]) == fs[j])
    && And(w, op.mask) == op.opcode
    && NoStray(op, w)
  }

  lemma SameField(w: nat, v: nat, o: Operand, k: nat)
    requires ValueOf(w, o) == ValueOf(v, o) && InField(o, k)
    ensures Bit(w, k) <==> Bit(v, k)
  {
    BitOfExtract(w, o.shift, o.bits, k - o.shift);
    BitOfExtract(v, o.shift, o.bits, k - o.shift);
  }

  /** Opcode and operand values determine the word. */
  lemma EncodesUnique(op: Opcode, w: nat, v: nat, fs: seq<nat>)
    requires Encodes(op, w, fs) && Encodes(op, v, fs)
    ensures w == v
  {
    forall k: nat ensures Bit(w, k) <==> Bit(v, k) {
      if Bit(op.mask, k) {
        BitOfAnd(w, op.mask, k);
        BitOfAnd(v, op.mask, k);
      } else if Placed(op, k) {
        var j :| 0 <= j < |op.operands| && InField(op.operands[j], k);
        SameField(w, v, op.operands[j], k);
      }
    }
    SameBits(w, v);
  }
}
