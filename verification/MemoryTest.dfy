/** The alternate memory test, run on memory whose address decoder may be
    faulty: a word offset reaches some cell, not necessarily its own, and the
    cells themselves are ideal.  The tests' error counts are computed exactly.
 */
module MemoryTest {
  import opened Arithmetic
  import opened Bits

  type Word = x: int | 0 <= x < WORD

  const PATTERN: Word := 0xAAAA_AAAA
  const ANTI_PATTERN: Word := 0x5555_5555

  function Complement(w: Word): Word {
    0xFFFF_FFFF - w
  }

  /** A decoder: the cell that each word offset of the region reaches. */
  ghost predicate Decodes(decoder: seq<nat>, cells: array<Word>) {
    forall i :: 0 <= i < |decoder| ==> decoder[i] < cells.Length
  }

  // ----- the address line test

  /** How many of the probed offsets, from 2^k on, reach the cell of offset `t`. */
  function Sharing(decoder: seq<nat>, len: nat, t: nat, k: nat): nat
    requires len < |decoder| && t <= len
    decreases len - Pow2(k)
  {
    Pow2Positive(k);
    if Pow2(k) >= len then 0
    else (if Pow2(k) != t && decoder[Pow2(k)] == decoder[t] then 1 else 0) + Sharing(decoder, len, t, k + 1)
  }

  /** The same, summed over the offsets 2^k, 2^(k+1), ... below `len`. */
  function SharingPairs(decoder: seq<nat>, len: nat, k: nat): nat
    requires len < |decoder|
    decreases len - Pow2(k)
  {
    Pow2Positive(k);
    if Pow2(k) >= len then 0
    else Sharing(decoder, len, Pow2(k), 0) + SharingPairs(decoder, len, k + 1)
  }

  /** Every probed offset from 2^0 on holds the pattern, except that the cell
      of `t` holds its complement. */
  ghost predicate Prepared(cells: array<Word>, decoder: seq<nat>, len: nat, t: nat)
    requires Decodes(decoder, cells) && len < |decoder| && t <= len
    reads cells
  {
    forall j: nat :: Pow2(j) < len ==>
      cells[decoder[Pow2(j)]] == if decoder[Pow2(j)] == decoder[t] then ANTI_PATTERN else PATTERN
  }

  ghost predicate AllPattern(cells: array<Word>, decoder: seq<nat>, len: nat, k: nat)
    requires Decodes(decoder, cells) && len < |decoder|
    reads cells
  {
    forall j: nat :: j < k && Pow2(j) < len ==> cells[decoder[Pow2(j)]] == PATTERN
  }

  ghost predicate Settled(cells: array<Word>, decoder: seq<nat>, len: nat)
    requires Decodes(decoder, cells) && len < |decoder|
    reads cells
  {
    forall j: nat :: Pow2(j) < len ==> cells[decoder[Pow2(j)]] == PATTERN
  }

  lemma AllSettled(cells: array<Word>, decoder: seq<nat>, len: nat, k: nat)
    requires Decodes(decoder, cells) && len < |decoder|
    requires AllPattern(cells, decoder, len, k) && len <= Pow2(k)
    ensures Settled(cells, decoder, len)
  {
    forall j: nat | Pow2(j) < len ensures cells[decoder[Pow2(j)]] == PATTERN {
      if k <= j { if k < j { Pow2Increases(k, j); } }
    }
  }

  /** Writes the pattern at each power-of-two offset. */
  method WritePatterns(cells: array<Word>, decoder: seq<nat>, len: nat)
    requires Decodes(decoder, cells) && len < |decoder|
    modifies cells
    ensures Settled(cells, decoder, len)
  {
    var offset := 1;
    ghost var k := 0;
    while offset < len
      invariant offset == Pow2(k)
      invariant AllPattern(cells, decoder, len, k)
    {
      cells[decoder[offset]] := PATTERN;
      offset := offset * 2;
      k := k + 1;
      Pow2Positive(k);
    }
    AllSettled(cells, decoder, len, k);
  }

  /** Reads every power-of-two offset but `t` and counts what is not the pattern. */
  method CountBad(cells: array<Word>, decoder: seq<nat>, len: nat, t: nat) returns (errs: nat)
    requires Decodes(decoder, cells) && len < |decoder| && t <= len
    requires Prepared(cells, decoder, len, t)
    ensures errs == Sharing(decoder, len, t, 0)
  {
    errs := 0;
    var offset := 1;
    ghost var k := 0;
    while offset < len
      invariant offset == Pow2(k)
      invariant errs + Sharing(decoder, len, t, k) == Sharing(decoder, len, t, 0)
    {
      Pow2Positive(k);
      var temp := cells[decoder[offset]];
      if temp != PATTERN && offset != t {
        errs := errs + 1;
      }
      offset := offset * 2;
      k := k + 1;
    }
  }

  /** The walking-ones test of the address lines. */
  method AddressLineTest(cells: array<Word>, decoder: seq<nat>, len: nat) returns (errs: nat)
    requires Decodes(decoder, cells) && len < |decoder|
    modifies cells
    ensures errs == Sharing(decoder, len, 0, 0) + SharingPairs(decoder, len, 0)
  {
    WritePatterns(cells, decoder, len);
    // stuck high
    cells[decoder[0]] := ANTI_PATTERN;
    errs := CountBad(cells, decoder, len, 0);
    cells[decoder[0]] := PATTERN;
    // stuck low or shorted
    ghost var high := errs;
    var offset := 1;
    ghost var k := 0;
    while offset < len
      invariant offset == Pow2(k)
      invariant Settled(cells, decoder, len)
      invariant errs + SharingPairs(decoder, len, k) == high + SharingPairs(decoder, len, 0)
    {
      Pow2Positive(k);
      cells[decoder[offset]] := ANTI_PATTERN;
      var bad := CountBad(cells, decoder, len, offset);
      errs := errs + bad;
      cells[decoder[offset]] := PATTERN;
      offset := offset * 2;
      k := k + 1;
    }
  }

  /** The offsets the test probes: 0 and the powers of two below `len`. */
  ghost predicate Probed(len: nat, a: nat) {
    a == 0 || (a < len && exists k: nat :: a == Pow2(k))
  }

  ghost predicate ProbesDistinct(decoder: seq<nat>, len: nat)
    requires len < |decoder|
  {
    forall a: nat, b: nat :: a < b <= len && Probed(len, a) && Probed(len, b) ==> decoder[a] != decoder[b]
  }

  lemma {:induction false} SharingZero(decoder: seq<nat>, len: nat, t: nat, k: nat)
    requires len < |decoder| && t <= len
    ensures Sharing(decoder, len, t, k) == 0 <==>
            forall j: nat :: k <= j && Pow2(j) < len && Pow2(j) != t ==> decoder[Pow2(j)] != decoder[t]
    decreases len - Pow2(k)
  {
    Pow2Positive(k);
    if Pow2(k) >= len {
      forall j: nat | k < j ensures Pow2(j) >= len { Pow2Increases(k, j); }
    } else {
      SharingZero(decoder, len, t, k + 1);
    }
  }

  lemma {:induction false} SharingPairsZero(decoder: seq<nat>, len: nat, k: nat)
    requires len < |decoder|
    ensures SharingPairs(decoder, len, k) == 0 <==>
            forall i: nat :: k <= i && Pow2(i) < len ==> Sharing(decoder, len, Pow2(i), 0) == 0
    decreases len - Pow2(k)
  {
    Pow2Positive(k);
    if Pow2(k) >= len {
      forall j: nat | k < j ensures Pow2(j) >= len { Pow2Increases(k, j); }
    } else {
      SharingPairsZero(decoder, len, k + 1);
    }
  }

  /** Offsets 0 and 2^i, or 2^i and 2^j, at the same cell are counted. */
  lemma ErrorFreeSeparates(decoder: seq<nat>, len: nat, a: nat, b: nat)
    requires len < |decoder| && a < b <= len && Probed(len, a) && Probed(len, b)
    requires Sharing(decoder, len, 0, 0) + SharingPairs(decoder, len, 0) == 0
    ensures decoder[a] != decoder[b]
  {
    var j: nat :| b == Pow2(j);
    assert Pow2(j) < len;
    if a == 0 {
      SharingZero(decoder, len, 0, 0);
      assert decoder[Pow2(j)] != decoder[0];
    } else {
      var i: nat :| a == Pow2(i);
      SharingPairsZero(decoder, len, 0);
      assert Sharing(decoder, len, Pow2(i), 0) == 0;
      SharingZero(decoder, len, a, 0);
      assert decoder[Pow2(j)] != decoder[a];
    }
  }

  lemma DistinctUncounted(decoder: seq<nat>, len: nat, t: nat)
    requires len < |decoder| && t <= len && Probed(len, t) && ProbesDistinct(decoder, len)
    ensures Sharing(decoder, len, t, 0) == 0
  {
    forall j: nat | Pow2(j) < len && Pow2(j) != t ensures decoder[Pow2(j)] != decoder[t] {
      Pow2Positive(j);
      assert Probed(len, Pow2(j));
    }
    SharingZero(decoder, len, t, 0);
  }

  /** The address line test counts no error if and only if the decoder keeps the
      probed offsets apart. */
  lemma AddressLineTestComplete(decoder: seq<nat>, len: nat)
    requires len < |decoder|
    ensures Sharing(decoder, len, 0, 0) + SharingPairs(decoder, len, 0) == 0 <==> ProbesDistinct(decoder, len)
  {
    if Sharing(decoder, len, 0, 0) + SharingPairs(decoder, len, 0) == 0 {
      forall a: nat, b: nat | a < b <= len && Probed(len, a) && Probed(len, b) ensures decoder[a] != decoder[b] {
        ErrorFreeSeparates(decoder, len, a, b);
      }
    }
    if ProbesDistinct(decoder, len) {
      DistinctUncounted(decoder, len, 0);
      forall i: nat | Pow2(i) < len ensures Sharing(decoder, len, Pow2(i), 0) == 0 {
        assert Probed(len, Pow2(i));
        DistinctUncounted(decoder, len, Pow2(i));
      }
      SharingPairsZero(decoder, len, 0);
    }
  }

  // ----- address line faults

  /** A fault on the address lines of a region of 2^m words. */
  datatype Fault =
    | StuckLow(line: nat)
    | StuckHigh(line: nat)
    | ShortedLow(line: nat, other: nat)    // wired together, a low line wins
    | ShortedHigh(line: nat, other: nat)   // wired together, a high line wins

  function Line(a: nat, k: nat): nat {
    if Bit(a, k) then 1 else 0
  }

  /** `a` with line `k` reading `v`. */
  function WithBit(a: nat, k: nat, v: nat): int {
    a + (v - Line(a, k)) * Pow2(k)
  }

  /** The offset that arrives at the cells when `a` is put on the lines. */
  function Seen(f: Fault, a: nat): int {
    match f
    case StuckLow(k) => WithBit(a, k, 0)
    case StuckHigh(k) => WithBit(a, k, 1)
    case ShortedLow(j, k) =>
      var v := if Line(a, j) < Line(a, k) then Line(a, j) else Line(a, k);
      a + (v - Line(a, j)) * Pow2(j) + (v - Line(a, k)) * Pow2(k)
    case ShortedHigh(j, k) =>
      var v := if Line(a, j) < Line(a, k) then Line(a, k) else Line(a, j);
      a + (v - Line(a, j)) * Pow2(j) + (v - Line(a, k)) * Pow2(k)
  }

  predicate OnLines(f: Fault, m: nat) {
    match f
    case StuckLow(k) => k < m
    case StuckHigh(k) => k < m
    case ShortedLow(j, k) => j < m && k < m && j != k
    case ShortedHigh(j, k) => j < m && k < m && j != k
  }

  lemma {:induction false} PowerBits(i: nat, k: nat)
    ensures Line(Pow2(i), k) == if i == k then 1 else 0
    ensures Line(0, k) == 0
    decreases k
  {
    if k > 0 {
      if i == 0 {
        PowerBits(0, k - 1);
      } else {
        PowerBits(i - 1, k - 1);
        assert Pow2(i) / 2 == Pow2(i - 1);
      }
    }
  }

  /** Two probed offsets that a fault merges. */
  lemma FaultMerges(f: Fault, m: nat) returns (a: nat, b: nat)
    requires OnLines(f, m)
    ensures a < b < Pow2(m) && Probed(Pow2(m), a) && Probed(Pow2(m), b) && Seen(f, a) == Seen(f, b)
  {
    var k := f.line;
    Pow2Increases(k, m);
    PowerBits(k, k);
    assert Probed(Pow2(m), 0) && Probed(Pow2(m), Pow2(k));
    a, b := 0, Pow2(k);
    if f.ShortedLow? || f.ShortedHigh? {
      var j := f.other;
      Pow2Increases(j, m);
      PowerBits(k, j);
      PowerBits(j, k);
      PowerBits(j, j);
      if f.ShortedHigh? {
        assert Probed(Pow2(m), Pow2(j));
        if j < k {
          Pow2Increases(j, k);
          a := Pow2(j);
        } else {
          Pow2Increases(k, j);
          a, b := Pow2(k), Pow2(j);
        }
      }
    }
  }

  /** Any single stuck line and any short of two lines is caught in a region of
      2^m words. */
  lemma AddressLineFaultCaught(decoder: seq<nat>, m: nat, f: Fault)
    requires Pow2(m) < |decoder| && OnLines(f, m)
    requires forall a: nat :: a < Pow2(m) ==> decoder[a] == Seen(f, a)
    ensures Sharing(decoder, Pow2(m), 0, 0) + SharingPairs(decoder, Pow2(m), 0) > 0
  {
    var a, b := FaultMerges(f, m);
    assert decoder[a] == decoder[b];
    AddressLineTestComplete(decoder, Pow2(m));
  }

  // ----- the increment/invert test

  /** The last offset below `n` that reaches cell `c`, or -1. */
  function LastAt(decoder: seq<nat>, c: nat, n: nat): (i: int)
    requires n <= |decoder|
    ensures -1 <= i < n
    ensures i >= 0 ==> decoder[i] == c
  {
    if n == 0 then -1
    else if decoder[n - 1] == c then n - 1
    else LastAt(decoder, c, n - 1)
  }

  lemma {:induction false} LastAtBounds(decoder: seq<nat>, j: nat, n: nat)
    requires j < n <= |decoder|
    ensures j <= LastAt(decoder, decoder[j], n)
  {
    if decoder[n - 1] != decoder[j] { LastAtBounds(decoder, j, n - 1); }
  }

  /** Offset `i` shares its cell with another one. */
  ghost predicate Aliased(decoder: seq<nat>, i: nat)
    requires i < |decoder|
  {
    exists j :: 0 <= j < |decoder| && j != i && decoder[j] == decoder[i]
  }

  ghost function AliasedBelow(decoder: seq<nat>, n: nat): nat
    requires n <= |decoder|
  {
    if n == 0 then 0 else AliasedBelow(decoder, n - 1) + if Aliased(decoder, n - 1) then 1 else 0
  }

  /** How the test sees aliasing: something before `o`, or not the last. */
  lemma AliasedIff(decoder: seq<nat>, o: nat)
    requires o < |decoder|
    ensures Aliased(decoder, o) <==>
            LastAt(decoder, decoder[o], o) >= 0 || LastAt(decoder, decoder[o], |decoder|) != o
  {
    var c, n := decoder[o], |decoder|;
    LastAtBounds(decoder, o, n);
    if Aliased(decoder, o) {
      var j :| 0 <= j < n && j != o && decoder[j] == c;
      if j < o { LastAtBounds(decoder, j, o); } else { LastAtBounds(decoder, j, n); }
    }
    if LastAt(decoder, c, o) >= 0 {
      assert decoder[LastAt(decoder, c, o)] == c;
    } else if LastAt(decoder, c, n) != o {
      assert decoder[LastAt(decoder, c, n)] == c;
    }
  }

  /** What cell `c` holds when the first `o` words have been checked and inverted. */
  function Inverting(decoder: seq<nat>, c: nat, o: nat): int
    requires o <= |decoder|
  {
    var m := LastAt(decoder, c, o);
    if m >= 0 then 0xFFFF_FFFF - (m + 1) else LastAt(decoder, c, |decoder|) + 1
  }

  /** ... and when the first `o` words have been checked again and zeroed. */
  function Zeroing(decoder: seq<nat>, c: nat, o: nat): int
    requires o <= |decoder|
  {
    if LastAt(decoder, c, o) >= 0 then 0 else 0xFFFF_FFFF - (LastAt(decoder, c, |decoder|) + 1)
  }

  lemma PassStep(decoder: seq<nat>, o: nat)
    requires o < |decoder|
    ensures forall c: nat :: Inverting(decoder, c, o + 1) ==
              if decoder[o] == c then 0xFFFF_FFFF - (o + 1) else Inverting(decoder, c, o)
    ensures forall c: nat :: Zeroing(decoder, c, o + 1) ==
              if decoder[o] == c then 0 else Zeroing(decoder, c, o)
  {
    forall c: nat
      ensures Inverting(decoder, c, o + 1) == if decoder[o] == c then 0xFFFF_FFFF - (o + 1) else Inverting(decoder, c, o)
      ensures Zeroing(decoder, c, o + 1) == if decoder[o] == c then 0 else Zeroing(decoder, c, o)
    {
      var n := o + 1;
      assert LastAt(decoder, c, n) == if decoder[n - 1] == c then n - 1 else LastAt(decoder, c, n - 1);
    }
  }

  lemma PassReads(decoder: seq<nat>, o: nat)
    requires o < |decoder| < 0x7FFF_FFFF
    ensures Inverting(decoder, decoder[o], o) != o + 1 <==> Aliased(decoder, o)
    ensures Zeroing(decoder, decoder[o], o) != 0xFFFF_FFFF - (o + 1) <==> Aliased(decoder, o)
  {
    AliasedIff(decoder, o);
  }

  lemma PassDone(decoder: seq<nat>, i: nat)
    requires i < |decoder|
    ensures Inverting(decoder, decoder[i], |decoder|) == Zeroing(decoder, decoder[i], 0)
    ensures Zeroing(decoder, decoder[i], |decoder|) == 0
  {
    LastAtBounds(decoder, i, |decoder|);
  }

  /** The cells after the first `n` words have been filled. */
  predicate FilledTo(cells: seq<Word>, decoder: seq<nat>, n: nat) {
    && n <= |decoder| && (forall i :: 0 <= i < |decoder| ==> decoder[i] < |cells|)
    && forall i :: 0 <= i < |decoder| && LastAt(decoder, decoder[i], n) >= 0 ==>
         cells[decoder[i]] == LastAt(decoder, decoder[i], n) + 1
  }

  lemma FilledNext(cells: seq<Word>, decoder: seq<nat>, n: nat)
    requires n < |decoder| && n + 1 < WORD && FilledTo(cells, decoder, n)
    ensures FilledTo(cells[decoder[n] := n + 1], decoder, n + 1)
  {
    var m := n + 1;
    forall i | 0 <= i < |decoder| && LastAt(decoder, decoder[i], m) >= 0
      ensures cells[decoder[n] := m][decoder[i]] == LastAt(decoder, decoder[i], m) + 1
    {
      assert LastAt(decoder, decoder[i], m) == if decoder[m - 1] == decoder[i] then m - 1 else LastAt(decoder, decoder[i], m - 1);
    }
  }

  /** Fills the region with 1, 2, 3, ... */
  method Fill(cells: array<Word>, decoder: seq<nat>)
    requires Decodes(decoder, cells) && |decoder| < 0x8000_0000
    modifies cells
    ensures forall i :: 0 <= i < |decoder| ==> cells[decoder[i]] == Inverting(decoder, decoder[i], 0)
  {
    var pattern: Word := 1;
    for offset := 0 to |decoder|
      invariant pattern == offset + 1
      invariant FilledTo(cells[..], decoder, offset)
    {
      ghost var before := cells[..];
      cells[decoder[offset]] := pattern;
      pattern := pattern + 1;
      FilledNext(before, decoder, offset);
    }
    forall i | 0 <= i < |decoder| ensures cells[decoder[i]] == Inverting(decoder, decoder[i], 0) {
      LastAtBounds(decoder, i, |decoder|);
    }
  }

  /** Checks each location and inverts it. */
  method CheckAndInvert(cells: array<Word>, decoder: seq<nat>) returns (errs: nat)
    requires Decodes(decoder, cells) && |decoder| < 0x7FFF_FFFF
    requires forall i :: 0 <= i < |decoder| ==> cells[decoder[i]] == Inverting(decoder, decoder[i], 0)
    modifies cells
    ensures errs == AliasedBelow(decoder, |decoder|)
    ensures forall i :: 0 <= i < |decoder| ==> cells[decoder[i]] == Zeroing(decoder, decoder[i], 0)
  {
    errs := 0;
    var pattern: Word := 1;
    for offset := 0 to |decoder|
      invariant pattern == offset + 1
      invariant errs == AliasedBelow(decoder, offset)
      invariant forall i :: 0 <= i < |decoder| ==> cells[decoder[i]] == Inverting(decoder, decoder[i], offset)
    {
      PassReads(decoder, offset);
      var temp := cells[decoder[offset]];
      if temp != pattern {
        errs := errs + 1;
      }
      cells[decoder[offset]] := Complement(pattern);
      pattern := pattern + 1;
      PassStep(decoder, offset);
    }
    forall i | 0 <= i < |decoder| ensures cells[decoder[i]] == Zeroing(decoder, decoder[i], 0) {
      PassDone(decoder, i);
    }
  }

  /** Checks each location for the inverted value and zeroes it. */
  method CheckAndZero(cells: array<Word>, decoder: seq<nat>) returns (errs: nat)
    requires Decodes(decoder, cells) && |decoder| < 0x7FFF_FFFF
    requires forall i :: 0 <= i < |decoder| ==> cells[decoder[i]] == Zeroing(decoder, decoder[i], 0)
    modifies cells
    ensures errs == AliasedBelow(decoder, |decoder|)
    ensures forall i :: 0 <= i < |decoder| ==> cells[decoder[i]] == 0
  {
    errs := 0;
    var pattern: Word := 1;
    for offset := 0 to |decoder|
      invariant pattern == offset + 1
      invariant errs == AliasedBelow(decoder, offset)
      invariant forall i :: 0 <= i < |decoder| ==> cells[decoder[i]] == Zeroing(decoder, decoder[i], offset)
    {
      PassReads(decoder, offset);
      var antiPattern := Complement(pattern);
      var temp := cells[decoder[offset]];
      if temp != antiPattern {
        errs := errs + 1;
      }
      cells[decoder[offset]] := 0;
      pattern := pattern + 1;
      PassStep(decoder, offset);
    }
    forall i | 0 <= i < |decoder| ensures cells[decoder[i]] == 0 {
      PassDone(decoder, i);
    }
  }

  /** The increment/invert test reports exactly two errors for every word that
      shares its cell with another. */
  method IncrementTest(cells: array<Word>, decoder: seq<nat>) returns (errs: nat)
    requires Decodes(decoder, cells) && |decoder| < 0x7FFF_FFFF
    modifies cells
    ensures errs == 2 * AliasedBelow(decoder, |decoder|)
  {
    Fill(cells, decoder);
    var first := CheckAndInvert(cells, decoder);
    var second := CheckAndZero(cells, decoder);
    errs := first + second;
  }

  ghost predicate Injective(decoder: seq<nat>) {
    forall i, j :: 0 <= i < j < |decoder| ==> decoder[i] != decoder[j]
  }

  lemma {:induction false} AliasedBelowZero(decoder: seq<nat>, n: nat)
    requires n <= |decoder|
    ensures AliasedBelow(decoder, n) == 0 <==> forall i :: 0 <= i < n ==> !Aliased(decoder, i)
  {
    if n > 0 { AliasedBelowZero(decoder, n - 1); }
  }

  /** The increment/invert test counts no error if and only if no two words of
      the region share a cell. */
  lemma IncrementTestComplete(decoder: seq<nat>)
    ensures AliasedBelow(decoder, |decoder|) == 0 <==> Injective(decoder)
  {
    AliasedBelowZero(decoder, |decoder|);
    if !Injective(decoder) {
      var i, j :| 0 <= i < j < |decoder| && decoder[i] == decoder[j];
      assert Aliased(decoder, i);
    }
  }
}
