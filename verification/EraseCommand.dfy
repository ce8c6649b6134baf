/** The address forms of the erase command, from their text on. */
module EraseCommand {
  import opened Arithmetic
  import opened Numerals
  import opened FlashPlanner
  import opened FlashErase

  // ----- the text of an address range

  /** A whole text read as a hexadecimal number. */
  datatype Number = NoNumber | Number(value: nat)

  function WholeNumber(s: string): Number {
    var (value, next) := StrToUl(s, 0, 16);
    if next == 0 || next < |s| then NoNumber else Number(value)
  }

  datatype Spec = Malformed | FromTo(first: nat, last: nat) | WithLength(first: nat, length: nat)

  /** What the two arguments say. */
  function ParseSpec(arg1: string, arg2: string): Spec {
    var plus := arg2 != "" && arg2[0] == '+';
    var a, b := WholeNumber(arg1), WholeNumber(if plus then arg2[1..] else arg2);
    if a.NoNumber? || b.NoNumber? then Malformed
    else if plus then WithLength(a.value, b.value)
    else FromTo(a.value, b.value)
  }

  /** A hexadecimal number, with 0x or without, and nothing else. */
  predicate HexPrefixed(s: string) {
    |s| > 2 && s[0] == '0' && s[1] == 'x' && IsNumeral(s[2..], 16)
  }

  predicate HexPlain(s: string) {
    s != "" && IsNumeral(s, 16)
  }

  /** Exactly such texts are numbers, with their value modulo 2^32. */
  lemma WholeNumberIff(s: string)
    ensures WholeNumber(s) ==
            if HexPrefixed(s) then Number(NumeralValue(s[2..], 16) % WORD)
            else if HexPlain(s) then Number(NumeralValue(s, 16) % WORD)
            else NoNumber
  {
    if HexPrefixed(s) {
      OpenHex(s, 0, s[2..], 16);
    } else if HexPlain(s) {
      if |s| > 1 { assert DigitValue(s[1]) >= 0; }
      assert s[0..|s|] == s;
      NumeralRead(s, 0, s, 16);
    } else {
      NoWholeNumber(s);
    }
  }

  lemma NoWholeNumber(s: string)
    requires !HexPrefixed(s) && !HexPlain(s)
    ensures WholeNumber(s) == NoNumber
  {
    if s != "" {
      ScanEnd(s, 0, 16, 0);
      ScanEnd(s, 1, 16, 0);
      if |s| > 2 { ScanEnd(s, 2, 16, 0); }
    }
  }

  /** The two arguments are malformed exactly when one of them, the plus sign apart,
      is no such number. */
  lemma MalformedIff(arg1: string, arg2: string)
    ensures var second := if arg2 != "" && arg2[0] == '+' then arg2[1..] else arg2;
            ParseSpec(arg1, arg2) == Malformed
            <==> !(HexPrefixed(arg1) || HexPlain(arg1)) || !(HexPrefixed(second) || HexPlain(second))
  {
    WholeNumberIff(arg1);
    WholeNumberIff(if arg2 != "" && arg2[0] == '+' then arg2[1..] else arg2);
  }

  lemma ReadsWhole(v: nat)
    requires v < WORD
    ensures WholeNumber(Digits(v, 16)) == Number(v)
  {
    var d := Digits(v, 16);
    assert d[0..|d|] == d;
    ReadsBack(d, 0, v, 16);
  }

  lemma {:induction false} DigitsAreDigits(v: nat)
    ensures forall i :: 0 <= i < |Digits(v, 16)| ==> DigitValue(Digits(v, 16)[i]) >= 0
    decreases v
  {
    if v >= 16 { DigitsAreDigits(v / 16); }
  }

  /** Ranges and lengths printed in hexadecimal are read as what they are. */
  lemma PrintedSpec(a: nat, b: nat)
    requires a < WORD && b < WORD
    ensures ParseSpec(Digits(a, 16), Digits(b, 16)) == FromTo(a, b)
    ensures ParseSpec(Digits(a, 16), "+" + Digits(b, 16)) == WithLength(a, b)
  {
    ReadsWhole(a);
    ReadsWhole(b);
    DigitsAreDigits(b);
    assert ("+" + Digits(b, 16))[1..] == Digits(b, 16);
  }

  // ----- the command

  /** `addr_spec`: -1 for a malformed text or a length that ends outside flash. */
  method AddrSpec(banks: seq<Bank>, arg1: string, arg2: string) returns (rc: int, first: nat, last: nat)
    requires Layout(banks)
    ensures rc == 1 || rc == -1
    ensures match ParseSpec(arg1, arg2)
            case Malformed => rc == -1
            case FromTo(a, b) => rc == 1 && first == a && last == b
            case WithLength(a, n) =>
              && first == a
              && (rc == 1 <==> InFlash(banks, (a + n - 1) % WORD))
              && (rc == 1 ==> EndOfHolder(banks, (a + n - 1) % WORD, last))
              && (LengthFits(banks, a, n) ==> rc == 1 && FirstEndFrom(banks, a + n - 1, last) && last <= FlashEnd(banks))
  {
    var (value, ep) := StrToUl(arg1, 0, 16);
    first, last := value, 0;
    if ep == 0 || ep < |arg1| { return -1, first, last; }
    var lenUsed, text := false, arg2;
    if arg2 != "" && arg2[0] == '+' {
      lenUsed, text := true, arg2[1..];
    }
    var (number, end) := StrToUl(text, 0, 16);
    last := number;
    if end == 0 || end < |text| { return -1, first, last; }
    rc := 1;
    if lenUsed {
      var ok;
      ok, last := AddrSpecLength(banks, first, last);
      rc := if ok then 1 else -1;
    }
  }

  /** How the erase command answers. */
  datatype Answer = BadAddress | Usage | Ran(rcode: int, calls: seq<Call>)

  /** The answer to "erase first last". */
  ghost function RangeAnswer(banks: seq<Bank>, first: nat, last: nat, status: seq<int>): Answer
    requires Layout(banks) && |status| == |banks|
  {
    var p := PlanFrom(banks, 0, first, last);
    if first >= last then Usage
    else if Accepted(p) then Ran(FirstFailure(p.picks, status, 0), CallsFrom(p.picks, status, 0))
    else Ran(1, [])
  }

  /** The answer to a length whose first covering sector end is `end`. */
  ghost predicate AnswersTo(banks: seq<Bank>, first: nat, length: nat, end: nat, status: seq<int>, answer: Answer)
    requires Layout(banks) && |status| == |banks| && LengthFits(banks, first, length)
  {
    FirstEndFrom(banks, first + length - 1, end) && end <= FlashEnd(banks) && answer == RangeAnswer(banks, first, end, status)
  }

  /** The answer to any length, also one of zero or one that wraps around. */
  ghost predicate Answers(banks: seq<Bank>, first: nat, length: nat, end: nat, status: seq<int>, answer: Answer)
    requires Layout(banks) && |status| == |banks|
  {
    && EndOfHolder(banks, (first + length - 1) % WORD, end)
    && answer == RangeAnswer(banks, first, end, status)
    && (LengthFits(banks, first, length) ==> AnswersTo(banks, first, length, end, status, answer))
  }

  method EraseBetween(banks: seq<Bank>, first: nat, last: nat, status: seq<int>) returns (answer: Answer)
    requires Layout(banks) && |status| == |banks|
    ensures answer == RangeAnswer(banks, first, last, status)
  {
    if first >= last { return Usage; }
    var rcode, calls := FlashSectErase(banks, first, last, status);
    answer := Ran(rcode, calls);
  }

  /** The last part of `do_flerase`. */
  method EraseRange(banks: seq<Bank>, arg1: string, arg2: string, status: seq<int>) returns (answer: Answer)
    requires Layout(banks) && |status| == |banks|
    ensures match ParseSpec(arg1, arg2)
            case Malformed => answer == BadAddress
            case FromTo(a, b) => answer == RangeAnswer(banks, a, b, status)
            case WithLength(a, n) =>
              if InFlash(banks, (a + n - 1) % WORD) then exists end: nat :: Answers(banks, a, n, end, status, answer)
              else answer == BadAddress
  {
    var rc, first, last := AddrSpec(banks, arg1, arg2);
    if rc < 0 { return BadAddress; }
    answer := EraseBetween(banks, first, last, status);
    ghost var spec := ParseSpec(arg1, arg2);
    if spec.WithLength? {
      assert Answers(banks, spec.first, spec.length, last, status, answer);
    }
  }

  /** The request is met: the sectors from `first` to `end`, the first sector end
      that covers it, are erased, unless that is a single byte, which is a usage error. */
  ghost predicate Fulfils(banks: seq<Bank>, first: nat, length: nat, end: nat, answer: Answer)
    requires Layout(banks) && LengthFits(banks, first, length)
  {
    && FirstEndFrom(banks, first + length - 1, end)
    && if first == end then answer == Usage else answer.Ran? && answer.rcode == 0 && ErasesExactly(banks, answer.calls, first, end)
  }

  /** From a sector start inside back-to-back flash, and when the driver succeeds,
      the smallest run of whole sectors that holds the bytes is erased. */
  lemma LengthErases(banks: seq<Bank>, first: nat, length: nat, end: nat, status: seq<int>, answer: Answer)
    requires Layout(banks) && |status| == |banks| && forall i :: 0 <= i < |status| ==> status[i] == 0
    requires LengthFits(banks, first, length) && AnswersTo(banks, first, length, end, status, answer)
    ensures Fulfils(banks, first, length, end, answer)
  {
    var p := PlanFrom(banks, 0, first, end);
    var calls := CallsFrom(p.picks, status, 0);
    assert first <= first + length - 1 <= end;
    if first < end {
      assert Accepted(p) && FlashStart(banks) <= first by { EraseRuns(banks, first, end); }
      assert answer == Ran(0, calls) by { NoFailure(p.picks, status, 0); }
      EraseExact(banks, first, end, status);
    }
  }

  /** "erase first +length", in any spelling. */
  method EraseByLength(banks: seq<Bank>, arg1: string, arg2: string, first: nat, length: nat, status: seq<int>) returns (answer: Answer)
    requires Layout(banks) && |status| == |banks| && ParseSpec(arg1, arg2) == WithLength(first, length)
    ensures LengthFits(banks, first, length) && (forall i :: 0 <= i < |status| ==> status[i] == 0) ==>
            exists end: nat :: Fulfils(banks, first, length, end, answer)
  {
    answer := EraseRange(banks, arg1, arg2, status);
    if LengthFits(banks, first, length) && forall i :: 0 <= i < |status| ==> status[i] == 0 {
      LengthFulfilled(banks, first, length, status, answer);
    }
  }

  lemma LengthFulfilled(banks: seq<Bank>, first: nat, length: nat, status: seq<int>, answer: Answer)
    requires Layout(banks) && |status| == |banks| && forall i :: 0 <= i < |status| ==> status[i] == 0
    requires LengthFits(banks, first, length)
    requires InFlash(banks, (first + length - 1) % WORD) ==> exists end: nat :: Answers(banks, first, length, end, status, answer)
    ensures exists end: nat :: Fulfils(banks, first, length, end, answer)
  {
    LastInFlash(banks, first, length);
    var end: nat :| Answers(banks, first, length, end, status, answer);
    LengthErases(banks, first, length, end, status, answer);
  }
}
