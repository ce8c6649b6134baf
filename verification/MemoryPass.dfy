/** One pass of the alternate memory test: data lines, address lines and cells.
 */
module MemoryPass {
  import opened Arithmetic
  import opened MemoryTest

  // ----- the data line test

  /** The patterns whose bits are shifted through the word. */
  const BIT_PATTERNS: seq<Word> := [0x1, 0x3, 0x7, 0xF, 0x5, 0x15, 0x55, 0xAAAA_AAAA]

  /** A pattern shifted up by `k` bits. */
  function Shifted(p: Word, k: nat): Word {
    p * Pow2(k) % WORD
  }

  /** Values that the test takes from a pattern, from the `k`-th shift on. */
  function Shifts(p: Word, k: nat): nat
    requires k <= 32
    decreases 32 - k
  {
    if k == 32 || Shifted(p, k) == 0 then 0 else 1 + Shifts(p, k + 1)
  }

  function AllShifts(ps: seq<Word>, j: nat): nat
    requires j <= |ps|
    decreases |ps| - j
  {
    if j == |ps| then 0 else Shifts(ps[j], 0) + AllShifts(ps, j + 1)
  }

  lemma ShiftOut(p: Word)
    ensures Shifted(p, 32) == 0
  {
    Pow2Add(16, 16);
    assert Pow2(16) == 0x1_0000 by { Pow2Add(8, 8); }
    assert p * WORD % WORD == 0 by { DivModUnique(p * WORD, WORD, p, 0); }
  }

  lemma ShiftOnce(p: Word, k: nat)
    ensures Shifted(p, k) * 2 % WORD == Shifted(p, k + 1)
  {
    var x := p * Pow2(k);
    assert p * Pow2(k + 1) == 2 * x;
    Doubled(x);
  }

  lemma Doubled(x: nat)
    ensures x % WORD * 2 % WORD == 2 * x % WORD
  {
  }

  // ----- the data bus

  /** The data lines between processor and memory: sound, one stuck or two shorted,
      or one that is not driven by the memory and keeps what the processor put on
      it last. */
  datatype Bus = Sound | Faulty(fault: Fault) | Floating(line: nat)

  predicate OnBus(bus: Bus) {
    match bus
    case Sound => true
    case Faulty(f) => OnLines(f, 32)
    case Floating(k) => k < 32
  }

  /** What is read when the memory holds `held` and `driven` was on the bus before. */
  function Read(bus: Bus, held: Word, driven: Word): int {
    match bus
    case Sound => held
    case Faulty(f) => Seen(f, held)
    case Floating(k) => WithBit(held, k, Line(driven, k))
  }

  /** A value written to the first word, its complement parked, reads back wrong;
      `clash` says that both reach the same cell. */
  function Misread(bus: Bus, clash: bool, v: Word): nat {
    if Read(bus, if clash then Complement(v) else v, Complement(v)) != v then 1 else 0
  }

  /** Errors from the `k`-th shift of a pattern on, and of its complement. */
  function Errors(bus: Bus, clash: bool, p: Word, k: nat): nat
    requires k <= 32
    decreases 32 - k
  {
    if k == 32 || Shifted(p, k) == 0 then 0
    else Misread(bus, clash, Shifted(p, k)) + Misread(bus, clash, Complement(Shifted(p, k))) + Errors(bus, clash, p, k + 1)
  }

  function AllErrors(bus: Bus, clash: bool, ps: seq<Word>, j: nat): nat
    requires j <= |ps|
    decreases |ps| - j
  {
    if j == |ps| then 0 else Errors(bus, clash, ps[j], 0) + AllErrors(bus, clash, ps, j + 1)
  }

  /** Shifts one pattern through the word, and its complement. */
  method ShiftPattern(cells: array<Word>, cell: nat, parking: nat, p: Word, bus: Bus) returns (errs: nat)
    requires cell < cells.Length && parking < cells.Length
    modifies cells
    ensures errs == Errors(bus, cell == parking, p, 0)
  {
    errs := 0;
    var val := p;
    ghost var k := 0;
    while val != 0
      invariant k <= 32 && val == Shifted(p, k)
      invariant errs + Errors(bus, cell == parking, p, k) == Errors(bus, cell == parking, p, 0)
      decreases 32 - k
    {
      assert k < 32 by { ShiftOut(p); }
      ShiftOnce(p, k);
      cells[cell] := val;
      cells[parking] := Complement(val);
      var readback := Read(bus, cells[cell], Complement(val));
      if readback != val { errs := errs + 1; }
      cells[cell] := Complement(val);
      cells[parking] := val;
      readback := Read(bus, cells[cell], val);
      if readback != Complement(val) { errs := errs + 1; }
      ErrorsStep(bus, cell == parking, p, k, val);
      val := val * 2 % WORD;
      k := k + 1;
    }
  }

  lemma ErrorsStep(bus: Bus, clash: bool, p: Word, k: nat, val: Word)
    requires k < 32 && val == Shifted(p, k) != 0
    ensures Errors(bus, clash, p, k) ==
            (if Read(bus, if clash then Complement(val) else val, Complement(val)) != val then 1 else 0) +
            (if Read(bus, if clash then val else Complement(val), val) != Complement(val) then 1 else 0) +
            Errors(bus, clash, p, k + 1)
  {
    assert Complement(Complement(val)) == val;
  }

  /** The data line test: an error for every value, shifted or complemented, that
      reads back wrong. */
  method DataLineTest(cells: array<Word>, decoder: seq<nat>, parking: nat, bus: Bus) returns (errs: nat)
    requires Decodes(decoder, cells) && decoder != [] && parking < cells.Length
    modifies cells
    ensures errs == AllErrors(bus, decoder[0] == parking, BIT_PATTERNS, 0)
  {
    errs := 0;
    for j := 0 to |BIT_PATTERNS|
      invariant errs + AllErrors(bus, decoder[0] == parking, BIT_PATTERNS, j) == AllErrors(bus, decoder[0] == parking, BIT_PATTERNS, 0)
    {
      var bad := ShiftPattern(cells, decoder[0], parking, BIT_PATTERNS[j], bus);
      errs := errs + bad;
    }
  }

  /** On a sound bus each value is read back right, or, when the parking address
      reaches the cell of the first word, wrong. */
  lemma SoundMisread(clash: bool, v: Word)
    ensures Misread(Sound, clash, v) == if clash then 1 else 0
  {
  }

  lemma {:induction false} SoundErrors(clash: bool, p: Word, k: nat)
    requires k <= 32
    ensures Errors(Sound, clash, p, k) == if clash then 2 * Shifts(p, k) else 0
    decreases 32 - k
  {
    if k < 32 && Shifted(p, k) != 0 {
      SoundMisread(clash, Shifted(p, k));
      SoundMisread(clash, Complement(Shifted(p, k)));
      SoundErrors(clash, p, k + 1);
    }
  }

  /** On a sound bus: two errors for every value when the parking address reaches
      the cell of the first word, none otherwise. */
  lemma {:induction false} SoundBus(clash: bool, ps: seq<Word>, j: nat)
    requires j <= |ps|
    ensures AllErrors(Sound, clash, ps, j) == if clash then 2 * AllShifts(ps, j) else 0
    decreases |ps| - j
  {
    if j < |ps| {
      SoundErrors(clash, ps[j], 0);
      SoundBus(clash, ps, j + 1);
    }
  }

  lemma SomeShifts()
    ensures AllShifts(BIT_PATTERNS, 0) > 0
  {
    assert Shifted(BIT_PATTERNS[0], 0) == 1;
    assert Shifts(BIT_PATTERNS[0], 0) > 0;
  }

  // ----- data line faults

  lemma {:induction false} FlippedBit(w: nat, n: nat, k: nat)
    requires k < n && w < Pow2(n)
    ensures Line(Pow2(n) - 1 - w, k) == 1 - Line(w, k)
    decreases n
  {
    var p := Pow2(n - 1);
    Pow2Positive(n - 1);
    assert (2 * p - 1 - w) / 2 == p - 1 - w / 2 && (2 * p - 1 - w) % 2 == 1 - w % 2;
    if k > 0 { FlippedBit(w / 2, n - 1, k - 1); }
  }

  lemma WordPower()
    ensures Pow2(32) == WORD
  {
    assert Pow2(8) == 256;
    Pow2Add(8, 8);
    Pow2Add(16, 16);
  }

  /** A value that is changed on its way back. */
  lemma Changed(bus: Bus, v: Word)
    requires Read(bus, v, Complement(v)) != v
    ensures Misread(bus, false, v) == 1
  {
  }

  lemma BitPower(i: nat)
    requires i < 32
    ensures 0 < Pow2(i) < WORD
  {
    WordPower();
    Pow2Increases(i, 32);
  }

  lemma StuckShows(f: Fault) returns (i: nat)
    requires OnLines(f, 32) && (f.StuckLow? || f.StuckHigh?)
    ensures i < 32 && Seen(f, Pow2(i)) != Pow2(i)
  {
    var k := f.line;
    i := if f.StuckLow? then k else if k == 0 then 1 else 0;
    PowerBits(i, k);
    Pow2Positive(k);
  }

  lemma ShortShows(f: Fault)
    requires OnLines(f, 32) && (f.ShortedLow? || f.ShortedHigh?)
    ensures Seen(f, Pow2(f.line)) != Pow2(f.line)
  {
    PowerBits(f.line, f.line);
    PowerBits(f.line, f.other);
    Pow2Positive(f.line);
    Pow2Positive(f.other);
  }

  lemma FloatingShows(k: nat, v: Word)
    requires k < 32 && v == Pow2(k)
    ensures Read(Floating(k), v, Complement(v)) != v
  {
    PowerBits(k, k);
    ComplementBit(v, k);
    ClearedBit(v, Pow2(k));
  }

  lemma ComplementBit(v: Word, k: nat)
    requires k < 32
    ensures Line(Complement(v), k) == 1 - Line(v, k)
  {
    WordPower();
    FlippedBit(v, 32, k);
  }

  lemma ClearedBit(v: nat, p: nat)
    requires v == p && 0 < p
    ensures v + (0 - 1) * p != v
  {
  }

  /** A single one on some line shows the fault. */
  lemma OneBitShows(bus: Bus) returns (i: nat)
    requires OnBus(bus) && !bus.Sound?
    ensures i < 32 && 0 < Pow2(i) < WORD && Misread(bus, false, Pow2(i)) == 1
  {
    match bus
    case Floating(k) =>
      i := k;
      BitPower(i);
      FloatingShows(k, Pow2(k));
      Changed(bus, Pow2(i));
    case Faulty(f) =>
      if f.StuckLow? || f.StuckHigh? {
        i := StuckShows(f);
      } else {
        i := f.line;
        ShortShows(f);
      }
      BitPower(i);
      Changed(bus, Pow2(i));
  }

  lemma OneShifted(i: nat)
    requires i < 32
    ensures Shifted(1, i) == Pow2(i) && 0 < Pow2(i)
  {
    WordPower();
    Pow2Increases(i, 32);
  }

  /** The walking one comes to line `i`. */
  lemma {:induction false} WalksOver(bus: Bus, p: Word, k: nat, i: nat, v: Word)
    requires p == 1 && k <= i < 32 && v == Pow2(i)
    ensures Errors(bus, false, p, k) >= Misread(bus, false, v)
    decreases i - k
  {
    OneShifted(k);
    OneShifted(i);
    if k < i { WalksOver(bus, p, k + 1, i, v); }
  }

  /** Every stuck data line, every short of two and every floating one is caught. */
  lemma DataLineFaultCaught(bus: Bus, ps: seq<Word>)
    requires OnBus(bus) && !bus.Sound? && ps != [] && ps[0] == BIT_PATTERNS[0]
    ensures AllErrors(bus, false, ps, 0) > 0
  {
    var i := OneBitShows(bus);
    var v: Word := Pow2(i);
    var p := ps[0];
    assert Errors(bus, false, p, 0) >= 1 by { WalksOver(bus, p, 0, i, v); }
    FirstPattern(bus, ps);
  }

  lemma FirstPattern(bus: Bus, ps: seq<Word>)
    requires ps != []
    ensures AllErrors(bus, false, ps, 0) >= Errors(bus, false, ps[0], 0)
  {
  }

  // ----- the pass

  /** One pass over a region of `len + 1` words: no error is counted if and only if
      no two words share a cell and the first one does not share the cell of the
      parking address. */
  method TestRegion(cells: array<Word>, decoder: seq<nat>, len: nat, parking: nat) returns (errs: nat)
    requires Decodes(decoder, cells) && len + 1 == |decoder| < 0x7FFF_FFFF && parking < cells.Length
    modifies cells
    ensures errs == 0 <==> Injective(decoder) && decoder[0] != parking
  {
    var dataErrs := DataLineTest(cells, decoder, parking, Sound);
    SoundBus(decoder[0] == parking, BIT_PATTERNS, 0);
    SomeShifts();
    var lineErrs := AddressLineTest(cells, decoder, len);
    var wordErrs := IncrementTest(cells, decoder);
    errs := dataErrs + lineErrs + wordErrs;
    AddressLineTestComplete(decoder, len);
    IncrementTestComplete(decoder);
  }
}
