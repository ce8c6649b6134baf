/** Erasing and protecting by address on a board whose banks are known and lie
    back to back: when a range is accepted, and what the rounded
    "start +length" form selects.
 */
module FlashErase {
  import opened Arithmetic
  import opened FlashPlanner

  /** All banks known, each beginning where the one before it ends. */
  predicate BackToBack(banks: seq<Bank>) {
    && banks != []
    && (forall i :: 0 <= i < |banks| ==> banks[i].known && Geometry(banks[i]))
    && (forall i :: 0 < i < |banks| ==> banks[i].start[0] == BankEnd(banks[i - 1]) + 1)
  }

  function FlashStart(banks: seq<Bank>): nat
    requires BackToBack(banks)
  {
    banks[0].start[0]
  }

  function FlashEnd(banks: seq<Bank>): nat
    requires BackToBack(banks)
  {
    BankEnd(banks[|banks| - 1])
  }

  ghost predicate StartFrom(banks: seq<Bank>, k: nat, a: nat) {
    exists i :: k <= i < |banks| && a in banks[i].start
  }

  ghost predicate EndFrom(banks: seq<Bank>, k: nat, a: nat)
    requires Layout(banks)
  {
    exists i :: k <= i < |banks| && Geometry(banks[i]) && HasEnd(banks[i], a)
  }

  lemma {:induction false} BanksAscend(banks: seq<Bank>, i: nat, j: nat)
    requires BackToBack(banks) && i < j < |banks|
    ensures BankEnd(banks[i]) < banks[j].start[0]
    decreases j
  {
    if i < j - 1 {
      BanksAscend(banks, i, j - 1);
    }
  }

  lemma SectorBounds(b: Bank, a: nat)
    requires Geometry(b)
    ensures a in b.start ==> b.start[0] <= a <= BankEnd(b)
    ensures HasEnd(b, a) ==> b.start[0] <= a <= BankEnd(b)
  {
    assert forall i :: 0 <= i < |b.start| ==> b.start[0] <= b.start[i] <= SectorEnd(b, i) <= BankEnd(b);
  }

  /** Boundaries found from bank `k` on lie in bank `k` or past its end. */
  lemma BoundarySplit(banks: seq<Bank>, k: nat, a: nat)
    requires BackToBack(banks) && k < |banks|
    ensures StartFrom(banks, k, a) <==> a in banks[k].start || StartFrom(banks, k + 1, a)
    ensures EndFrom(banks, k, a) <==> HasEnd(banks[k], a) || EndFrom(banks, k + 1, a)
    ensures StartFrom(banks, k + 1, a) || EndFrom(banks, k + 1, a) ==> BankEnd(banks[k]) < a
  {
    forall i | k < i < |banks| && (a in banks[i].start || HasEnd(banks[i], a))
      ensures BankEnd(banks[k]) < a
    {
      BanksAscend(banks, k, i);
      SectorBounds(banks[i], a);
    }
  }

  // ----- exactness

  /** A plan that `flash_sect_erase` carries out. */
  predicate Accepted(p: Plan) {
    !p.failed && p.count > 0
  }

  /** What the exactness theorem says of the banks from `k` on. */
  ghost predicate Exact(banks: seq<Bank>, k: nat, first: nat, last: nat)
    requires BackToBack(banks) && k < |banks|
  {
    ExactPlan(banks, k, first, last, PlanFrom(banks, k, first, last))
  }

  ghost predicate ExactPlan(banks: seq<Bank>, k: nat, first: nat, last: nat, p: Plan)
    requires BackToBack(banks) && k < |banks|
  {
    && (Accepted(p) <==> StartFrom(banks, k, first) && EndFrom(banks, k, last))
    && (StartFrom(banks, k, first) && !p.failed ==> p.count > 0)
    && (Accepted(p) ==> Selects(banks, k, p, first, last + 1))
  }

  /** A start that no later bank contains selects nothing more. */
  lemma {:induction false} StrayStart(banks: seq<Bank>, k: nat, first: nat, last: nat)
    requires BackToBack(banks) && k <= |banks|
    requires forall i :: k <= i < |banks| ==> first < banks[i].start[0]
    ensures !Accepted(PlanFrom(banks, k, first, last))
    decreases |banks| - k
  {
    if k < |banks| && first <= last {
      SectorBounds(banks[k], first);
      StrayStart(banks, k + 1, first, last);
    }
  }

  /** The range begins past bank `k`. */
  lemma ExactPast(banks: seq<Bank>, k: nat, first: nat, last: nat)
    requires BackToBack(banks) && k + 1 < |banks| && BankEnd(banks[k]) < first <= last < WORD
    requires Exact(banks, k + 1, first, last)
    ensures Exact(banks, k, first, last)
  {
    PlanPast(banks, k, first, last);
    ExactSkip(banks, k, first, last, PlanFrom(banks, k + 1, first, last));
  }

  lemma ExactSkip(banks: seq<Bank>, k: nat, first: nat, last: nat, rest: Plan)
    requires BackToBack(banks) && k + 1 < |banks| && BankEnd(banks[k]) < first <= last
    requires ExactPlan(banks, k + 1, first, last, rest)
    ensures ExactPlan(banks, k, first, last, Plan([NONE] + rest.picks, rest.failed, rest.count))
  {
    var p := Plan([NONE] + rest.picks, rest.failed, rest.count);
    assert StartFrom(banks, k, first) <==> StartFrom(banks, k + 1, first) by { BoundaryPast(banks, k, first); }
    assert EndFrom(banks, k, last) <==> EndFrom(banks, k + 1, last) by { BoundaryPast(banks, k, last); }
    if Accepted(rest) {
      assert Selects(banks, k, p, first, last + 1) by { SelectsCons(banks, k, NONE, rest, first, first, last + 1); }
    }
  }

  /** An address past bank `k` is a boundary from there on only beyond it. */
  lemma BoundaryPast(banks: seq<Bank>, k: nat, a: nat)
    requires BackToBack(banks) && k < |banks| && BankEnd(banks[k]) < a
    ensures StartFrom(banks, k, a) <==> StartFrom(banks, k + 1, a)
    ensures EndFrom(banks, k, a) <==> EndFrom(banks, k + 1, a)
  {
    SectorBounds(banks[k], a);
    BoundarySplit(banks, k, a);
  }

  /** A bank before the range is passed over. */
  lemma PlanPast(banks: seq<Bank>, k: nat, first: nat, last: nat)
    requires BackToBack(banks) && k < |banks| && BankEnd(banks[k]) < first <= last
    ensures var rest := PlanFrom(banks, k + 1, first, last);
            PlanFrom(banks, k, first, last) == Plan([NONE] + rest.picks, rest.failed, rest.count)
  {
    SectorBounds(banks[k], first);
    SectorBounds(banks[k], last);
    assert InBank(banks[k], first, last) == Stage(NONE, false, first);
  }

  /** The range begins inside bank `k`, but not at a sector. */
  lemma ExactStray(banks: seq<Bank>, k: nat, first: nat, last: nat)
    requires BackToBack(banks) && k < |banks| && banks[k].start[0] <= first <= BankEnd(banks[k]) && first <= last
    requires first !in banks[k].start
    ensures Exact(banks, k, first, last)
  {
    BoundarySplit(banks, k, first);
    var here := InBank(banks[k], first, last);
    if !here.failed {
      forall i | k < i < |banks| ensures first < banks[i].start[0] {
        BanksAscend(banks, k, i);
      }
      StrayStart(banks, k + 1, first, last);
      assert here == Stage(NONE, false, first);
    }
  }

  /** One bank, from a sector start to a sector end inside it. */
  lemma StageInside(b: Bank, first: nat, last: nat)
    requires Geometry(b) && first in b.start && first <= last && HasEnd(b, last)
    ensures InBank(b, first, last) ==
            Stage(Pick(StartingAt(b, first), EndingAt(b, last)), false, (last + 1) % WORD)
    ensures StartingAt(b, first) <= EndingAt(b, last)
  {
    var lo, hi := StartingAt(b, first), EndingAt(b, last);
    if hi < lo { EndsAscend(b, hi, lo); }
    SectorBounds(b, last);
  }

  lemma PlanInside(banks: seq<Bank>, k: nat, first: nat, last: nat)
    requires BackToBack(banks) && k < |banks| && first in banks[k].start && first <= last
    requires HasEnd(banks[k], last)
    ensures var p := PlanFrom(banks, k, first, last); Accepted(p) && Selects(banks, k, p, first, last + 1)
  {
    var b := banks[k];
    SectorBounds(b, last);
    StageInside(b, first, last);
    var rest := Plan(Nones(|banks| - k - 1), false, 0);
    assert PlanFrom(banks, k + 1, (last + 1) % WORD, last) == rest;
    NonesSelectNothing(banks, k + 1, last + 1);
    SelectsCons(banks, k, Pick(StartingAt(b, first), EndingAt(b, last)), rest, first, last + 1, last + 1);
  }

  /** The range begins at a sector of bank `k` and ends inside the bank. */
  lemma ExactInside(banks: seq<Bank>, k: nat, first: nat, last: nat)
    requires BackToBack(banks) && k < |banks| && first in banks[k].start && first <= last <= BankEnd(banks[k])
    ensures Exact(banks, k, first, last)
  {
    BoundarySplit(banks, k, first);
    BoundarySplit(banks, k, last);
    if HasEnd(banks[k], last) {
      PlanInside(banks, k, first, last);
    } else {
      assert InBank(banks[k], first, last).failed;
    }
  }

  /** One bank, from a sector start to its end and beyond. */
  lemma StageAcross(b: Bank, first: nat, last: nat)
    requires Geometry(b) && first in b.start && BankEnd(b) < last < WORD
    ensures InBank(b, first, last) == Stage(Pick(StartingAt(b, first), |b.start| - 1), false, BankEnd(b) + 1)
  {
    SectorBounds(b, last);
  }

  lemma PlanAcross(banks: seq<Bank>, k: nat, first: nat, last: nat)
    requires BackToBack(banks) && k + 1 < |banks| && first in banks[k].start && BankEnd(banks[k]) < last < WORD
    ensures var lo, mid := StartingAt(banks[k], first), banks[k + 1].start[0];
            var rest, pick := PlanFrom(banks, k + 1, mid, last), Pick(lo, |banks[k].start| - 1);
            && first < mid
            && PlanFrom(banks, k, first, last) == Plan([pick] + rest.picks, rest.failed, PickSize(pick) + rest.count)
  {
    StageAcross(banks[k], first, last);
    SectorBounds(banks[k], first);
  }

  /** The range begins at a sector of bank `k` and goes on past it. */
  lemma ExactAcross(banks: seq<Bank>, k: nat, first: nat, last: nat)
    requires BackToBack(banks) && k + 1 < |banks| && first in banks[k].start && BankEnd(banks[k]) < last < WORD
    requires Exact(banks, k + 1, banks[k + 1].start[0], last)
    ensures Exact(banks, k, first, last)
  {
    BoundarySplit(banks, k, first);
    BoundarySplit(banks, k, last);
    SectorBounds(banks[k], last);
    PlanAcross(banks, k, first, last);
    var mid := banks[k + 1].start[0];
    assert StartFrom(banks, k + 1, mid);
    var p, rest := PlanFrom(banks, k, first, last), PlanFrom(banks, k + 1, mid, last);
    assert p.failed == rest.failed && p.count > rest.count;
    if Accepted(rest) {
      SelectsAcross(banks, k, first, last);
    }
  }

  lemma SelectsAcross(banks: seq<Bank>, k: nat, first: nat, last: nat)
    requires BackToBack(banks) && k + 1 < |banks| && first in banks[k].start && BankEnd(banks[k]) < last < WORD
    requires var mid := banks[k + 1].start[0];
             var rest := PlanFrom(banks, k + 1, mid, last);
             Accepted(rest) && Selects(banks, k + 1, rest, mid, last + 1)
    ensures Selects(banks, k, PlanFrom(banks, k, first, last), first, last + 1)
  {
    PlanAcross(banks, k, first, last);
    SelectsBoth(banks, k, first, last, PlanFrom(banks, k + 1, banks[k + 1].start[0], last));
  }

  lemma SelectsBoth(banks: seq<Bank>, k: nat, first: nat, last: nat, rest: Plan)
    requires BackToBack(banks) && k + 1 < |banks| && first in banks[k].start && first < banks[k + 1].start[0]
    requires Selects(banks, k + 1, rest, banks[k + 1].start[0], last + 1)
    ensures var pick := Pick(StartingAt(banks[k], first), |banks[k].start| - 1);
            Selects(banks, k, Plan([pick] + rest.picks, false, PickSize(pick) + rest.count), first, last + 1)
  {
    var pick := Pick(StartingAt(banks[k], first), |banks[k].start| - 1);
    SelectsCons(banks, k, pick, rest, first, banks[k + 1].start[0], last + 1);
  }

  lemma {:induction false} ExactFrom(banks: seq<Bank>, k: nat, first: nat, last: nat)
    requires BackToBack(banks) && k < |banks| && banks[k].start[0] <= first <= last <= FlashEnd(banks)
    ensures Exact(banks, k, first, last)
    decreases |banks| - k
  {
    var end := BankEnd(banks[k]);
    if end < first {
      ExactFrom(banks, k + 1, first, last);
      ExactPast(banks, k, first, last);
    } else if first !in banks[k].start {
      ExactStray(banks, k, first, last);
    } else if last <= end {
      ExactInside(banks, k, first, last);
    } else {
      ExactFrom(banks, k + 1, banks[k + 1].start[0], last);
      ExactAcross(banks, k, first, last);
    }
  }

  /** On back-to-back banks a range inside flash is accepted if and only if it
      starts at a sector start and ends at a sector end, and then the selected
      sectors are exactly the range. */
  lemma PlannerExact(banks: seq<Bank>, first: nat, last: nat)
    requires BackToBack(banks) && FlashStart(banks) <= first <= last <= FlashEnd(banks)
    ensures var p := PlanFrom(banks, 0, first, last);
            && (Accepted(p) <==> StartFrom(banks, 0, first) && EndFrom(banks, 0, last))
            && (Accepted(p) ==> IsInterval(banks, p.picks, first, last) && p.count == TotalSize(p.picks))
  {
    ExactFrom(banks, 0, first, last);
  }

  // ----- carrying a plan out

  /** One call of the chip driver: erase sectors `lo` to `hi` of a bank. */
  datatype Call = Call(bank: nat, lo: int, hi: int)

  /** The driver calls for the picks from bank `k` on; the first call that fails
      is the last one made. */
  function CallsFrom(picks: seq<Pick>, status: seq<int>, k: nat): seq<Call>
    requires |picks| == |status| && k <= |picks|
    decreases |picks| - k
  {
    if k == |picks| then []
    else if picks[k].lo < 0 then CallsFrom(picks, status, k + 1)
    else [Call(k, picks[k].lo, picks[k].hi)] + if status[k] != 0 then [] else CallsFrom(picks, status, k + 1)
  }

  /** The first status other than zero among the banks selected from `k` on; zero if none. */
  function FirstFailure(picks: seq<Pick>, status: seq<int>, k: nat): int
    requires |picks| == |status| && k <= |picks|
    decreases |picks| - k
  {
    if k == |picks| then 0
    else if picks[k].lo >= 0 && status[k] != 0 then status[k]
    else FirstFailure(picks, status, k + 1)
  }

  lemma {:induction false} NoFailure(picks: seq<Pick>, status: seq<int>, k: nat)
    requires |picks| == |status| && k <= |picks| && forall i :: 0 <= i < |status| ==> status[i] == 0
    ensures FirstFailure(picks, status, k) == 0
    decreases |picks| - k
  {
    if k < |picks| { NoFailure(picks, status, k + 1); }
  }

  /** The call for bank `c.bank` as planned; all banks selected before it succeed. */
  ghost predicate Due(picks: seq<Pick>, status: seq<int>, k: nat, c: Call)
    requires |picks| == |status|
  {
    && k <= c.bank < |picks| && picks[c.bank].lo >= 0 && c.lo == picks[c.bank].lo && c.hi == picks[c.bank].hi
    && forall j :: k <= j < c.bank && picks[j].lo >= 0 ==> status[j] == 0
  }

  predicate InOrder(calls: seq<Call>) {
    forall i, j :: 0 <= i < j < |calls| ==> calls[i].bank < calls[j].bank
  }

  lemma InOrderCons(head: Call, rest: seq<Call>)
    requires InOrder(rest) && forall c :: c in rest ==> head.bank < c.bank
    ensures InOrder([head] + rest) && InOrder([head] + [])
  {
    var calls := [head] + rest;
    assert forall j :: 0 < j < |calls| ==> calls[j] == rest[j - 1] && rest[j - 1] in rest;
  }

  /** The calls made: one for each selected bank up to the first that fails, in order. */
  lemma {:induction false} CallsMade(picks: seq<Pick>, status: seq<int>, k: nat)
    requires |picks| == |status| && k <= |picks|
    ensures forall c :: c in CallsFrom(picks, status, k) <==> Due(picks, status, k, c)
    ensures InOrder(CallsFrom(picks, status, k))
    decreases |picks| - k
  {
    if k < |picks| {
      CallsMade(picks, status, k + 1);
      var rest := CallsFrom(picks, status, k + 1);
      if picks[k].lo >= 0 {
        var head := Call(k, picks[k].lo, picks[k].hi);
        forall c ensures c in CallsFrom(picks, status, k) <==> Due(picks, status, k, c) {
          assert Due(picks, status, k, c) <==> c == head || (status[k] == 0 && Due(picks, status, k + 1, c));
        }
        assert forall c :: c in rest ==> Due(picks, status, k + 1, c);
        InOrderCons(head, rest);
      } else {
        assert CallsFrom(picks, status, k) == rest;
        assert forall c :: Due(picks, status, k, c) <==> Due(picks, status, k + 1, c);
      }
    }
  }

  /** The return code is the status of the first selected bank that fails. */
  lemma {:induction false} FailureFirst(picks: seq<Pick>, status: seq<int>, k: nat)
    requires |picks| == |status| && k <= |picks|
    ensures var r := FirstFailure(picks, status, k);
            if r == 0 then forall i :: k <= i < |picks| && picks[i].lo >= 0 ==> status[i] == 0
            else exists i :: FailsFirst(picks, status, k, i) && r == status[i]
    decreases |picks| - k
  {
    if k < |picks| {
      if picks[k].lo >= 0 && status[k] != 0 {
        assert FailsFirst(picks, status, k, k);
      } else {
        FailureFirst(picks, status, k + 1);
        if FirstFailure(picks, status, k + 1) != 0 {
          var i :| FailsFirst(picks, status, k + 1, i) && FirstFailure(picks, status, k + 1) == status[i];
          assert FailsFirst(picks, status, k, i);
        }
      }
    }
  }

  ghost predicate FailsFirst(picks: seq<Pick>, status: seq<int>, k: nat, i: int)
    requires |picks| == |status|
  {
    && k <= i < |picks| && picks[i].lo >= 0 && status[i] != 0
    && forall j :: k <= j < i && picks[j].lo >= 0 ==> status[j] == 0
  }

  /** `flash_sect_erase`; `status` is what the chip driver returns for each bank. */
  method FlashSectErase(banks: seq<Bank>, first: nat, last: nat, status: seq<int>)
      returns (rcode: int, calls: seq<Call>)
    requires Layout(banks) && |status| == |banks|
    ensures var p := PlanFrom(banks, 0, first, last);
            if Accepted(p) then calls == CallsFrom(p.picks, status, 0) && rcode == FirstFailure(p.picks, status, 0)
            else calls == [] && rcode == 1
  {
    var sFirst, sLast := new int[|banks|], new int[|banks|];
    var planned;
    ghost var p := PlanFrom(banks, 0, first, last);
    rcode, planned := FillSectRanges(banks, first, last, sFirst, sLast);
    calls := [];
    if planned != 0 && rcode == 0 {
      rcode, calls := EraseSelected(sFirst, sLast, status, p.picks);
    } else if rcode == 0 {
      rcode := 1;   // start and/or end address not on sector boundary
    }
  }

  /** The erase loop: calls the driver for each selected bank until one call fails. */
  method EraseSelected(sFirst: array<int>, sLast: array<int>, status: seq<int>, ghost picks: seq<Pick>)
      returns (rcode: int, calls: seq<Call>)
    requires sFirst.Length == sLast.Length == |status| == |picks|
    requires forall i :: 0 <= i < |picks| ==> Pick(sFirst[i], sLast[i]) == picks[i]
    ensures calls == CallsFrom(picks, status, 0) && rcode == FirstFailure(picks, status, 0)
  {
    rcode, calls := 0, [];
    var bank := 0;
    ghost var all, left := CallsFrom(picks, status, 0), CallsFrom(picks, status, 0);
    while bank < |status| && rcode == 0
      invariant 0 <= bank <= |status|
      invariant all == calls + left && left == if rcode == 0 then CallsFrom(picks, status, bank) else []
      invariant FirstFailure(picks, status, 0) == if rcode == 0 then FirstFailure(picks, status, bank) else rcode
    {
      if sFirst[bank] >= 0 {
        ghost var more := if status[bank] != 0 then [] else CallsFrom(picks, status, bank + 1);
        var call := Call(bank, sFirst[bank], sLast[bank]);
        assert left == [call] + more;
        ConcatAssoc(calls, [call], more);
        calls, left := calls + [call], more;
        rcode := status[bank];
      }
      bank := bank + 1;
    }
  }

  /** Address `a` is erased by one of the calls. */
  ghost predicate Erased(banks: seq<Bank>, calls: seq<Call>, a: nat) {
    exists i :: 0 <= i < |calls| && ErasedBy(banks, calls[i], a)
  }

  /** The addresses erased are exactly those from `first` to `last`. */
  ghost predicate ErasesExactly(banks: seq<Bank>, calls: seq<Call>, first: nat, last: nat) {
    forall a: nat :: Erased(banks, calls, a) <==> first <= a <= last
  }

  predicate ErasedBy(banks: seq<Bank>, c: Call, a: nat) {
    c.bank < |banks| && InPick(banks[c.bank], Pick(c.lo, c.hi), a)
  }

  lemma {:induction false} CallsErase(banks: seq<Bank>, picks: seq<Pick>, status: seq<int>, k: nat, a: nat)
    requires |picks| == |status| == |banks| && k <= |picks|
    requires forall i :: 0 <= i < |status| ==> status[i] == 0
    ensures Erased(banks, CallsFrom(picks, status, k), a) <==> CoveredFrom(banks, k, picks[k..], a)
    decreases |picks| - k
  {
    if k < |picks| {
      var rest := CallsFrom(picks, status, k + 1);
      CallsErase(banks, picks, status, k + 1, a);
      assert picks[k..] == [picks[k]] + picks[k + 1..];
      CoveredCons(banks, k, picks[k], picks[k + 1..], a);
      if picks[k].lo >= 0 {
        ErasedCons(banks, Call(k, picks[k].lo, picks[k].hi), rest, a);
      }
    }
  }

  lemma ErasedCons(banks: seq<Bank>, c: Call, rest: seq<Call>, a: nat)
    ensures Erased(banks, [c] + rest, a) <==> ErasedBy(banks, c, a) || Erased(banks, rest, a)
  {
    var calls := [c] + rest;
    assert forall i :: 0 < i < |calls| ==> calls[i] == rest[i - 1];
    if ErasedBy(banks, c, a) { assert ErasedBy(banks, calls[0], a); }
    if Erased(banks, rest, a) {
      var i :| 0 <= i < |rest| && ErasedBy(banks, rest[i], a);
      assert ErasedBy(banks, calls[i + 1], a);
    }
  }

  /** When the driver succeeds, what an accepted range erases is the range,
      byte for byte. */
  lemma EraseExact(banks: seq<Bank>, first: nat, last: nat, status: seq<int>)
    requires BackToBack(banks) && FlashStart(banks) <= first <= last <= FlashEnd(banks)
    requires |status| == |banks| && forall i :: 0 <= i < |status| ==> status[i] == 0
    requires StartFrom(banks, 0, first) && EndFrom(banks, 0, last)
    ensures var calls := CallsFrom(PlanFrom(banks, 0, first, last).picks, status, 0);
            ErasesExactly(banks, calls, first, last)
  {
    PlannerExact(banks, first, last);
    var picks := PlanFrom(banks, 0, first, last).picks;
    forall a: nat ensures Erased(banks, CallsFrom(picks, status, 0), a) <==> first <= a <= last {
      CallsErase(banks, picks, status, 0, a);
      assert picks[0..] == picks;
      assert Covered(banks, picks, a) <==> first <= a <= last;
    }
  }

  // ----- start +length

  predicate InSector(b: Bank, i: int, a: nat) {
    Geometry(b) && 0 <= i < |b.start| && b.start[i] <= a <= SectorEnd(b, i)
  }

  ghost predicate InFlash(banks: seq<Bank>, a: nat) {
    exists i, j :: 0 <= i < |banks| && InSector(banks[i], j, a)
  }

  /** `end` is the end of a sector that holds `a`. */
  ghost predicate EndOfHolder(banks: seq<Bank>, a: nat, end: nat) {
    exists i, j :: 0 <= i < |banks| && InSector(banks[i], j, a) && end == SectorEnd(banks[i], j)
  }

  /** `flash_sect_roundb`: moves an address to the end of its sector.  Unknown
      banks are searched too. */
  method RoundToSectorEnd(banks: seq<Bank>, addr: nat) returns (rc: int, rounded: nat, ghost bank: nat, ghost sect: nat)
    requires Layout(banks)
    ensures rc == (if InFlash(banks, addr) then 0 else 1)
    ensures rc == 0 ==> bank < |banks| && InSector(banks[bank], sect, addr) && rounded == SectorEnd(banks[bank], sect)
    ensures rc != 0 ==> rounded == addr
  {
    var found := false;
    rounded, bank, sect := addr, 0, 0;
    var k := 0;
    while k < |banks| && !found
      invariant 0 <= k <= |banks|
      invariant !found ==> rounded == addr && forall i, j :: 0 <= i < k ==> !InSector(banks[i], j, addr)
      invariant found ==> bank < |banks| && InSector(banks[bank], sect, addr) && rounded == SectorEnd(banks[bank], sect)
    {
      var b := banks[k];
      var i := 0;
      while i < |b.start| && !found
        invariant 0 <= i <= |b.start|
        invariant !found ==> rounded == addr && forall j :: 0 <= j < i ==> !InSector(b, j, addr)
        invariant found ==> bank == k && InSector(b, sect, addr) && rounded == SectorEnd(b, sect)
      {
        var end := if i == |b.start| - 1 then b.start[0] + b.size - 1 else b.start[i + 1] - 1;
        if rounded <= end && rounded >= b.start[i] {
          found := true;
          bank, sect := k, i;
          if rounded < end {
            rounded := end;
          }
        }
        i := i + 1;
      }
      k := k + 1;
    }
    rc := if found then 0 else 1;
  }

  lemma {:induction false} SectorOf(b: Bank, a: nat, n: nat) returns (i: nat)
    requires Geometry(b) && 0 < n <= |b.start| && b.start[0] <= a <= SectorEnd(b, n - 1)
    ensures InSector(b, i, a)
    decreases n
  {
    if b.start[n - 1] <= a {
      i := n - 1;
    } else {
      i := SectorOf(b, a, n - 1);
    }
  }

  lemma {:induction false} BackToBackHasNoGap(banks: seq<Bank>, a: nat, n: nat)
    requires BackToBack(banks) && 0 < n <= |banks| && FlashStart(banks) <= a <= BankEnd(banks[n - 1])
    ensures InFlash(banks, a)
    decreases n
  {
    var b := banks[n - 1];
    if b.start[0] <= a {
      var j := SectorOf(b, a, |b.start|);
    } else {
      BackToBackHasNoGap(banks, a, n - 1);
    }
  }

  /** The end of the sector that holds `a` is the nearest sector end at or after `a`. */
  lemma NearestEnd(banks: seq<Bank>, bank: nat, sect: nat, a: nat, e: nat)
    requires BackToBack(banks) && bank < |banks| && InSector(banks[bank], sect, a)
    requires EndFrom(banks, 0, e) && a <= e
    ensures SectorEnd(banks[bank], sect) <= e
  {
    var b := banks[bank];
    var i :| 0 <= i < |banks| && HasEnd(banks[i], e);
    SectorBounds(banks[i], e);
    if i < bank {
      BanksAscend(banks, i, bank);
    } else if bank < i {
      BanksAscend(banks, bank, i);
    } else {
      var j :| 0 <= j < |b.start| && SectorEnd(b, j) == e;
      if j < sect { EndsAscend(b, j, sect); } else if sect < j { EndsAscend(b, sect, j); }
    }
  }

  lemma EndIsBoundary(banks: seq<Bank>, bank: nat, sect: nat)
    requires BackToBack(banks) && bank < |banks| && sect < |banks[bank].start|
    ensures EndFrom(banks, 0, SectorEnd(banks[bank], sect))
    ensures SectorEnd(banks[bank], sect) <= FlashEnd(banks)
  {
    assert HasEnd(banks[bank], SectorEnd(banks[bank], sect));
    if bank < |banks| - 1 { BanksAscend(banks, bank, |banks| - 1); }
  }

  /** `end` is the first sector end at or after `a`. */
  ghost predicate FirstEndFrom(banks: seq<Bank>, a: nat, end: nat)
    requires Layout(banks)
  {
    a <= end && EndFrom(banks, 0, end) && forall e: nat :: EndFrom(banks, 0, e) && a <= e ==> end <= e
  }

  /** The request lies inside back-to-back flash and begins at a sector. */
  ghost predicate LengthFits(banks: seq<Bank>, first: nat, length: nat) {
    BackToBack(banks) && StartFrom(banks, 0, first) && 1 <= length && first + length - 1 <= FlashEnd(banks)
  }

  lemma RoundedEnd(banks: seq<Bank>, bank: nat, sect: nat, a: nat)
    requires BackToBack(banks) && bank < |banks| && InSector(banks[bank], sect, a)
    ensures FirstEndFrom(banks, a, SectorEnd(banks[bank], sect))
    ensures SectorEnd(banks[bank], sect) <= FlashEnd(banks)
  {
    EndIsBoundary(banks, bank, sect);
    forall e: nat | EndFrom(banks, 0, e) && a <= e ensures SectorEnd(banks[bank], sect) <= e {
      NearestEnd(banks, bank, sect, a, e);
    }
  }

  /** The "+length" branch of `addr_spec`: the last address, rounded up. */
  method AddrSpecLength(banks: seq<Bank>, first: nat, length: nat) returns (ok: bool, last: nat)
    requires Layout(banks)
    ensures LengthFits(banks, first, length) ==>
            ok && FirstEndFrom(banks, first + length - 1, last) && last <= FlashEnd(banks)
    ensures ok <==> InFlash(banks, (first + length - 1) % WORD)
    ensures ok ==> EndOfHolder(banks, (first + length - 1) % WORD, last)
  {
    var requested: nat := (first + length - 1) % WORD;
    var rc;
    ghost var bank, sect;
    rc, last, bank, sect := RoundToSectorEnd(banks, requested);
    ok := rc <= 0;
    if LengthFits(banks, first, length) {
      assert requested == first + length - 1 && InFlash(banks, requested) by { LastInFlash(banks, first, length); }
      RoundedEnd(banks, bank, sect, requested);
    }
  }

  lemma LastInFlash(banks: seq<Bank>, first: nat, length: nat)
    requires LengthFits(banks, first, length)
    ensures first + length - 1 == (first + length - 1) % WORD && InFlash(banks, first + length - 1)
  {
    StartInFlash(banks, first);
    BackToBackHasNoGap(banks, first + length - 1, |banks|);
  }

  lemma EraseRuns(banks: seq<Bank>, first: nat, last: nat)
    requires BackToBack(banks) && StartFrom(banks, 0, first) && EndFrom(banks, 0, last)
    requires first <= last <= FlashEnd(banks)
    ensures FlashStart(banks) <= first && Accepted(PlanFrom(banks, 0, first, last))
  {
    StartInFlash(banks, first);
    PlannerExact(banks, first, last);
  }

  lemma StartInFlash(banks: seq<Bank>, first: nat)
    requires BackToBack(banks) && StartFrom(banks, 0, first)
    ensures FlashStart(banks) <= first <= FlashEnd(banks) < WORD
  {
    var i :| 0 <= i < |banks| && first in banks[i].start;
    SectorBounds(banks[i], first);
    if 0 < i { BanksAscend(banks, 0, i); }
    if i < |banks| - 1 { BanksAscend(banks, i, |banks| - 1); }
  }
}
