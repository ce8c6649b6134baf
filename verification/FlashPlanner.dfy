/** The flash sector planner: which sectors of which banks an address range
    selects, for erase and protect.  Addresses are 32-bit words; the one place
    where the planner's arithmetic can wrap is modelled as wrapping.
 */
module FlashPlanner {
  import opened Arithmetic

  /** One entry of `flash_info`: `start` lists the sector start addresses. */
  datatype Bank = Bank(known: bool, start: seq<nat>, size: nat)

  predicate Ascending(s: seq<nat>) {
    forall i, j :: 0 <= i < j < |s| ==> s[i] < s[j]
  }

  /** Sector starts increase, and the last sector is not empty. */
  predicate Geometry(b: Bank) {
    && 0 < |b.start|
    && Ascending(b.start)
    && b.start[|b.start| - 1] < b.start[0] + b.size <= WORD
  }

  /** Known banks have sectors; an unknown one may be left empty. */
  predicate Layout(banks: seq<Bank>) {
    forall i :: 0 <= i < |banks| ==> Geometry(banks[i]) || (!banks[i].known && banks[i].start == [])
  }

  function BankEnd(b: Bank): nat
    requires Geometry(b)
  {
    b.start[0] + b.size - 1
  }

  function SectorEnd(b: Bank, i: nat): (e: nat)
    requires Geometry(b) && i < |b.start|
    ensures b.start[i] <= e <= BankEnd(b)
  {
    if i == |b.start| - 1 then BankEnd(b) else b.start[i + 1] - 1
  }

  lemma EndsAscend(b: Bank, i: nat, j: nat)
    requires Geometry(b) && i < j < |b.start|
    ensures SectorEnd(b, i) < b.start[j] <= SectorEnd(b, j)
  {
  }

  // ----- what the planner computes

  /** The sector that starts at `a`, or -1. */
  ghost function StartingAt(b: Bank, a: nat): (i: int)
    ensures -1 <= i < |b.start|
    ensures i >= 0 ==> b.start[i] == a
    ensures i < 0 ==> a !in b.start
  {
    if a in b.start then var i :| 0 <= i < |b.start| && b.start[i] == a; i else -1
  }

  ghost predicate HasEnd(b: Bank, a: nat)
    requires Geometry(b)
  {
    exists i :: 0 <= i < |b.start| && SectorEnd(b, i) == a
  }

  /** The sector that ends at `a`, or -1. */
  ghost function EndingAt(b: Bank, a: nat): (i: int)
    requires Geometry(b)
    ensures -1 <= i < |b.start|
    ensures i >= 0 ==> SectorEnd(b, i) == a
    ensures i < 0 ==> !HasEnd(b, a)
  {
    if HasEnd(b, a) then var i :| 0 <= i < |b.start| && SectorEnd(b, i) == a; i else -1
  }

  /** The sectors chosen in one bank; `lo` is -1 when there are none. */
  datatype Pick = Pick(lo: int, hi: int)

  const NONE := Pick(-1, -1)

  /** `s_first`, `s_last` and the error flag after one bank, and where the
      range goes on. */
  datatype Stage = Stage(pick: Pick, failed: bool, next: nat)

  ghost function InBank(b: Bank, first: nat, last: nat): Stage
    requires Geometry(b)
  {
    var lo, hi := StartingAt(b, first), EndingAt(b, last);
    if lo >= 0 then
      if hi < 0 && last <= BankEnd(b) then Stage(Pick(lo, hi), true, first)
      else
        var hi' := if hi < 0 then |b.start| - 1 else hi;
        if hi' < lo then Stage(Pick(lo, hi'), true, first)
        else Stage(Pick(lo, hi'), false,
                   if hi' == |b.start| - 1 then (BankEnd(b) + 1) % WORD else b.start[hi' + 1])
    else if b.start[0] <= first < BankEnd(b) || hi >= 0 then Stage(Pick(lo, hi), true, first)
    else Stage(NONE, false, first)
  }

  datatype Plan = Plan(picks: seq<Pick>, failed: bool, count: nat)

  function Nones(n: nat): (s: seq<Pick>)
    ensures |s| == n && forall i :: 0 <= i < n ==> s[i] == NONE
  {
    seq(n, i => NONE)
  }

  function PickSize(p: Pick): nat {
    if 0 <= p.lo <= p.hi then p.hi - p.lo + 1 else 0
  }

  /** The plan for the banks from `k` on. */
  ghost function PlanFrom(banks: seq<Bank>, k: nat, first: nat, last: nat): (p: Plan)
    requires Layout(banks) && k <= |banks|
    ensures |p.picks| == |banks| - k
    decreases |banks| - k
  {
    if k == |banks| || first > last then Plan(Nones(|banks| - k), false, 0)
    else if !banks[k].known then
      var rest := PlanFrom(banks, k + 1, first, last);
      rest.(picks := [NONE] + rest.picks)
    else
      var here := InBank(banks[k], first, last);
      if here.failed then Plan([here.pick] + Nones(|banks| - k - 1), true, 0)
      else
        var rest := PlanFrom(banks, k + 1, here.next, last);
        Plan([here.pick] + rest.picks, rest.failed, PickSize(here.pick) + rest.count)
  }

  lemma StartUnique(b: Bank, a: nat, i: nat)
    requires Geometry(b) && i < |b.start| && b.start[i] == a
    ensures StartingAt(b, a) == i
  {
  }

  lemma EndUnique(b: Bank, a: nat, i: nat)
    requires Geometry(b) && i < |b.start| && SectorEnd(b, i) == a
    ensures EndingAt(b, a) == i
  {
    var j := EndingAt(b, a);
    if i < j { EndsAscend(b, i, j); } else if j < i { EndsAscend(b, j, i); }
  }

  /** The sector loop of one bank. */
  method ScanSectors(b: Bank, addrFirst: nat, addrLast: nat) returns (lo: int, hi: int)
    requires Geometry(b) && addrFirst <= addrLast
    ensures lo == StartingAt(b, addrFirst) && hi == EndingAt(b, addrLast)
  {
    lo, hi := -1, -1;
    var bEnd := b.start[0] + b.size - 1;
    var sEnd := |b.start| - 1;
    for sect := 0 to |b.start|
      invariant lo == if addrFirst in b.start[..sect] then StartingAt(b, addrFirst) else -1
      invariant -1 <= hi < sect && (hi >= 0 ==> SectorEnd(b, hi) == addrLast)
      invariant hi < 0 ==> forall j :: 0 <= j < sect ==> SectorEnd(b, j) != addrLast
    {
      var end := if sect == sEnd then bEnd else b.start[sect + 1] - 1;
      assert end == SectorEnd(b, sect);
      assert b.start[..sect + 1] == b.start[..sect] + [b.start[sect]];
      if b.start[sect] == addrFirst { StartUnique(b, addrFirst, sect); }
      if addrFirst > end { continue; }
      if addrLast < b.start[sect] { continue; }
      if addrFirst == b.start[sect] {
        lo := sect;
      }
      if addrLast == end {
        hi := sect;
      }
    }
    assert b.start[..|b.start|] == b.start;
    if hi >= 0 { EndUnique(b, addrLast, hi); }
  }

  /** The error checks of one bank and its effect on the plan. */
  method CloseBank(b: Bank, addrFirst: nat, addrLast: nat, lo: int, hi: int)
      returns (failed: bool, sLast: int, next: nat, added: nat)
    requires Geometry(b) && lo == StartingAt(b, addrFirst) && hi == EndingAt(b, addrLast)
    ensures Stage(Pick(lo, sLast), failed, next) == InBank(b, addrFirst, addrLast)
    ensures !failed ==> added == PickSize(Pick(lo, sLast))
  {
    var bEnd := b.start[0] + b.size - 1;
    var sEnd := |b.start| - 1;
    sLast, next, added, failed := hi, addrFirst, 0, false;
    if lo >= 0 {
      if sLast < 0 {
        if addrLast > bEnd {
          sLast := sEnd;
        } else {
          failed := true;   // end address not on sector boundary
          return;
        }
      }
      if sLast < lo {
        failed := true;     // end sector precedes start sector
        return;
      }
      next := if sLast == sEnd then (bEnd + 1) % WORD else b.start[sLast + 1];
      added := sLast - lo + 1;
    } else if addrFirst >= b.start[0] && addrFirst < bEnd {
      failed := true;       // start address not on sector boundary
    } else if sLast >= 0 {
      failed := true;       // banks mapped in reverse order
    }
  }

  /** Marks every bank as not selected. */
  method ClearRanges(sFirst: array<int>, sLast: array<int>)
    requires sFirst.Length == sLast.Length && sFirst != sLast
    modifies sFirst, sLast
    ensures forall j :: 0 <= j < sFirst.Length ==> sFirst[j] == -1 && sLast[j] == -1
  {
    for i := 0 to sFirst.Length
      invariant forall j :: 0 <= j < i ==> sFirst[j] == -1 && sLast[j] == -1
    {
      sFirst[i] := -1;
      sLast[i] := -1;
    }
  }

  /** One known bank: its range in the arrays, and the address to go on from. */
  method FillBank(b: Bank, i: nat, addrFirst: nat, addrLast: nat, sFirst: array<int>, sLast: array<int>)
      returns (failed: bool, next: nat, added: nat)
    requires Geometry(b) && addrFirst <= addrLast && i < sFirst.Length == sLast.Length && sFirst != sLast
    modifies sFirst, sLast
    ensures Stage(Pick(sFirst[i], sLast[i]), failed, next) == InBank(b, addrFirst, addrLast)
    ensures !failed ==> added == PickSize(Pick(sFirst[i], sLast[i]))
    ensures forall j :: 0 <= j < sFirst.Length && j != i ==> sFirst[j] == old(sFirst[j]) && sLast[j] == old(sLast[j])
  {
    var lo, hi := ScanSectors(b, addrFirst, addrLast);
    failed, hi, next, added := CloseBank(b, addrFirst, addrLast, lo, hi);
    sFirst[i], sLast[i] := lo, hi;
  }

  /** `flash_fill_sect_ranges`. */
  method FillSectRanges(banks: seq<Bank>, first: nat, addrLast: nat, sFirst: array<int>, sLast: array<int>)
      returns (rcode: int, count: nat)
    requires Layout(banks)
    requires sFirst.Length == sLast.Length == |banks| && sFirst != sLast
    modifies sFirst, sLast
    ensures var p := PlanFrom(banks, 0, first, addrLast);
            && rcode == (if p.failed then 1 else 0)
            && (rcode == 0 ==> count == p.count)
            && forall i :: 0 <= i < |banks| ==> Pick(sFirst[i], sLast[i]) == p.picks[i]
  {
    ghost var plan := PlanFrom(banks, 0, first, addrLast);
    count := 0;
    ClearRanges(sFirst, sLast);
    var addrFirst: nat := first;
    var bank := 0;
    assert plan.picks[0..] == plan.picks;
    while bank < |banks| && addrFirst <= addrLast
      invariant Filled(sFirst, sLast, plan.picks, bank)
      invariant Ahead(plan, PlanFrom(banks, bank, addrFirst, addrLast), bank, count)
    {
      var failed;
      failed, addrFirst, count := FillNext(banks, bank, addrFirst, addrLast, count, sFirst, sLast, plan);
      if failed { return 1, count; }
      bank := bank + 1;
    }
    AheadEnd(banks, plan, bank, addrFirst, addrLast, count);
    rcode := 0;
  }

  /** The arrays hold the first `k` picks and nothing yet for the other banks. */
  ghost predicate Filled(sFirst: array<int>, sLast: array<int>, picks: seq<Pick>, k: nat)
    reads sFirst, sLast
  {
    && k <= |picks| == sFirst.Length == sLast.Length && sFirst != sLast
    && (forall j :: 0 <= j < k ==> Pick(sFirst[j], sLast[j]) == picks[j])
    && (forall j :: k <= j < |picks| ==> Pick(sFirst[j], sLast[j]) == NONE)
  }

  /** A known bank takes its place in the arrays, the address and the count. */
  method FillKnown(banks: seq<Bank>, bank: nat, addrFirst: nat, addrLast: nat, count: nat,
                   sFirst: array<int>, sLast: array<int>, ghost plan: Plan)
      returns (failed: bool, next: nat, total: nat)
    requires Layout(banks) && bank < |banks| == |plan.picks| && banks[bank].known && addrFirst <= addrLast
    requires Filled(sFirst, sLast, plan.picks, bank)
    requires Ahead(plan, PlanFrom(banks, bank, addrFirst, addrLast), bank, count)
    modifies sFirst, sLast
    ensures Filled(sFirst, sLast, plan.picks, bank + 1)
    ensures failed ==> plan.failed && forall j :: bank < j < |banks| ==> plan.picks[j] == NONE
    ensures !failed ==> Ahead(plan, PlanFrom(banks, bank + 1, next, addrLast), bank + 1, total)
  {
    AheadKnown(banks, plan, bank, addrFirst, addrLast, count);
    var added;
    failed, next, added := FillBank(banks[bank], bank, addrFirst, addrLast, sFirst, sLast);
    total := if failed then count else count + added;
  }

  /** The next bank; an unknown one is skipped. */
  method FillNext(banks: seq<Bank>, bank: nat, addrFirst: nat, addrLast: nat, count: nat,
                  sFirst: array<int>, sLast: array<int>, ghost plan: Plan)
      returns (failed: bool, next: nat, total: nat)
    requires Layout(banks) && bank < |banks| == |plan.picks| && addrFirst <= addrLast
    requires Filled(sFirst, sLast, plan.picks, bank)
    requires Ahead(plan, PlanFrom(banks, bank, addrFirst, addrLast), bank, count)
    modifies sFirst, sLast
    ensures Filled(sFirst, sLast, plan.picks, bank + 1)
    ensures failed ==> plan.failed && forall j :: bank < j < |banks| ==> plan.picks[j] == NONE
    ensures !failed ==> Ahead(plan, PlanFrom(banks, bank + 1, next, addrLast), bank + 1, total)
  {
    failed, next, total := false, addrFirst, count;
    if banks[bank].known {
      failed, next, total := FillKnown(banks, bank, addrFirst, addrLast, count, sFirst, sLast, plan);
    } else {
      AheadUnknown(banks, plan, bank, addrFirst, addrLast, count);
    }
  }

  /** `rest` is what is left of `plan` from bank `k` on, with `count` sectors before it. */
  ghost predicate Ahead(plan: Plan, rest: Plan, k: nat, count: nat) {
    && k <= |plan.picks| && plan.picks[k..] == rest.picks
    && plan.failed == rest.failed
    && (!plan.failed ==> plan.count == count + rest.count)
  }

  lemma AheadUnknown(banks: seq<Bank>, plan: Plan, k: nat, first: nat, last: nat, count: nat)
    requires Layout(banks) && k < |banks| == |plan.picks| && first <= last && !banks[k].known
    requires Ahead(plan, PlanFrom(banks, k, first, last), k, count)
    ensures plan.picks[k] == NONE && Ahead(plan, PlanFrom(banks, k + 1, first, last), k + 1, count)
  {
    var rest := PlanFrom(banks, k, first, last);
    assert plan.picks[k] == rest.picks[0] && plan.picks[k + 1..] == rest.picks[1..];
  }

  lemma AheadKnown(banks: seq<Bank>, plan: Plan, k: nat, first: nat, last: nat, count: nat)
    requires Layout(banks) && k < |banks| == |plan.picks| && first <= last && banks[k].known
    requires Ahead(plan, PlanFrom(banks, k, first, last), k, count)
    ensures var here := InBank(banks[k], first, last);
            && plan.picks[k] == here.pick
            && (here.failed ==> plan.failed && forall j :: k < j < |banks| ==> plan.picks[j] == NONE)
            && (!here.failed ==> Ahead(plan, PlanFrom(banks, k + 1, here.next, last), k + 1, count + PickSize(here.pick)))
  {
    var rest := PlanFrom(banks, k, first, last);
    assert plan.picks[k] == rest.picks[0] && plan.picks[k + 1..] == rest.picks[1..];
    assert forall j :: k < j < |banks| ==> plan.picks[j] == rest.picks[j - k];
  }

  lemma AheadEnd(banks: seq<Bank>, plan: Plan, k: nat, first: nat, last: nat, count: nat)
    requires Layout(banks) && k <= |banks| == |plan.picks| && (k == |banks| || first > last)
    requires Ahead(plan, PlanFrom(banks, k, first, last), k, count)
    ensures !plan.failed && plan.count == count && forall j :: k <= j < |banks| ==> plan.picks[j] == NONE
  {
    assert forall j :: k <= j < |banks| ==> plan.picks[j] == plan.picks[k..][j - k];
  }

  // ----- safety

  predicate WellFormed(b: Bank, p: Pick) {
    p == NONE || (Geometry(b) && 0 <= p.lo <= p.hi < |b.start|)
  }

  /** Address `a` lies in a sector that `p` selects in bank `b`. */
  predicate InPick(b: Bank, p: Pick, a: nat) {
    Geometry(b) && 0 <= p.lo <= p.hi < |b.start| && b.start[p.lo] <= a <= SectorEnd(b, p.hi)
  }

  ghost predicate CoveredFrom(banks: seq<Bank>, k: nat, picks: seq<Pick>, a: nat)
    requires k <= |banks| && |picks| == |banks| - k
  {
    exists i :: k <= i < |banks| && InPick(banks[i], picks[i - k], a)
  }

  /** Address `a` lies in a selected sector of some bank. */
  ghost predicate Covered(banks: seq<Bank>, picks: seq<Pick>, a: nat)
    requires |picks| == |banks|
  {
    CoveredFrom(banks, 0, picks, a)
  }

  function TotalSize(picks: seq<Pick>): nat {
    if picks == [] then 0 else PickSize(picks[0]) + TotalSize(picks[1..])
  }

  /** Known bank `i` reaches the top of the address space, and a known bank
      `j` later in the table starts at address 0. */
  predicate Wraps(banks: seq<Bank>, i: nat, j: nat)
    requires Layout(banks)
  {
    && i < j < |banks| && banks[i].known && banks[j].known
    && BankEnd(banks[i]) == WORD - 1 && banks[j].start[0] == 0
  }

  ghost predicate WrapHazard(banks: seq<Bank>, k: nat)
    requires Layout(banks)
  {
    exists i: nat, j: nat :: k <= i && Wraps(banks, i, j)
  }

  lemma CoveredCons(banks: seq<Bank>, k: nat, p: Pick, rest: seq<Pick>, a: nat)
    requires k < |banks| && |rest| == |banks| - k - 1
    ensures CoveredFrom(banks, k, [p] + rest, a) <==>
            InPick(banks[k], p, a) || CoveredFrom(banks, k + 1, rest, a)
  {
    var picks := [p] + rest;
    if CoveredFrom(banks, k + 1, rest, a) {
      var i :| k + 1 <= i < |banks| && InPick(banks[i], rest[i - (k + 1)], a);
      assert InPick(banks[i], picks[i - k], a);
    }
    if InPick(banks[k], p, a) {
      assert InPick(banks[k], picks[k - k], a);
    }
  }

  /** What one bank contributes when it does not fail. */
  lemma StageInterval(b: Bank, first: nat, last: nat)
    requires Geometry(b) && first <= last < WORD && !InBank(b, first, last).failed
    ensures var here := InBank(b, first, last);
            && WellFormed(b, here.pick)
            && (here.pick == NONE ==> here.next == first)
            && (here.pick != NONE ==>
                  var next := SectorEnd(b, here.pick.hi) + 1;
                  && b.start[here.pick.lo] == first < next <= last + 1
                  && here.next == next % WORD)
  {
    var here := InBank(b, first, last);
    if here.pick != NONE && here.pick.lo < here.pick.hi {
      EndsAscend(b, here.pick.lo, here.pick.hi);
    }
  }

  lemma {:induction false} NothingAtZero(banks: seq<Bank>, k: nat, last: nat)
    requires Layout(banks) && k <= |banks| && last < WORD
    requires forall j :: k <= j < |banks| && banks[j].known ==> banks[j].start[0] != 0
    requires !PlanFrom(banks, k, 0, last).failed
    ensures PlanFrom(banks, k, 0, last) == Plan(Nones(|banks| - k), false, 0)
    decreases |banks| - k
  {
    if k < |banks| {
      if banks[k].known {
        assert 0 !in banks[k].start;
      }
      NothingAtZero(banks, k + 1, last);
      assert [NONE] + Nones(|banks| - k - 1) == Nones(|banks| - k);
    }
  }

  /** Plan `p` for the banks from `k` on selects exactly `[first, next)`. */
  ghost predicate Selects(banks: seq<Bank>, k: nat, p: Plan, first: nat, next: nat)
    requires k <= |banks|
  {
    && |p.picks| == |banks| - k
    && first <= next
    && (p.count > 0 <==> first < next)
    && p.count == TotalSize(p.picks)
    && (forall i :: k <= i < |banks| ==> WellFormed(banks[i], p.picks[i - k]))
    && (forall a: nat :: CoveredFrom(banks, k, p.picks, a) <==> first <= a < next)
  }

  lemma NonesSelectNothing(banks: seq<Bank>, k: nat, first: nat)
    requires k <= |banks|
    ensures Selects(banks, k, Plan(Nones(|banks| - k), false, 0), first, first)
  {
    NonesSize(|banks| - k);
  }

  lemma NonesSize(n: nat)
    ensures TotalSize(Nones(n)) == 0
  {
    if n > 0 {
      assert Nones(n)[1..] == Nones(n - 1);
      NonesSize(n - 1);
    }
  }

  lemma SelectsCons(banks: seq<Bank>, k: nat, pick: Pick, rest: Plan, first: nat, mid: nat, next: nat)
    requires k < |banks| && WellFormed(banks[k], pick)
    requires if pick == NONE then mid == first
             else banks[k].start[pick.lo] == first && SectorEnd(banks[k], pick.hi) + 1 == mid
    requires first <= mid && Selects(banks, k + 1, rest, mid, next)
    ensures Selects(banks, k, Plan([pick] + rest.picks, false, PickSize(pick) + rest.count), first, next)
  {
    var picks := [pick] + rest.picks;
    assert picks[1..] == rest.picks;
    forall a: nat ensures CoveredFrom(banks, k, picks, a) <==> first <= a < next {
      CoveredCons(banks, k, pick, rest.picks, a);
      assert CoveredFrom(banks, k + 1, rest.picks, a) <==> mid <= a < next;
    }
    if pick != NONE && pick.lo < pick.hi {
      EndsAscend(banks[k], pick.lo, pick.hi);
    }
  }

  /** Where the planned part of a bank ends, before the wrap. */
  ghost function MidPoint(b: Bank, first: nat, last: nat): nat
    requires Geometry(b) && first <= last < WORD && !InBank(b, first, last).failed
  {
    var here := InBank(b, first, last);
    if here.pick == NONE then first else StageInterval(b, first, last); SectorEnd(b, here.pick.hi) + 1
  }

  lemma MidPointBounds(banks: seq<Bank>, k: nat, first: nat, last: nat)
    requires Layout(banks) && k < |banks| && first <= last < WORD && banks[k].known
    requires !PlanFrom(banks, k, first, last).failed
    ensures !InBank(banks[k], first, last).failed
    ensures var mid, next := MidPoint(banks[k], first, last), InBank(banks[k], first, last).next;
            first <= mid <= last + 1 && next == (if mid == WORD then 0 else mid) &&
            !PlanFrom(banks, k + 1, next, last).failed
  {
    StageInterval(banks[k], first, last);
  }

  lemma PlanKnown(banks: seq<Bank>, k: nat, first: nat, last: nat, next: nat)
    requires Layout(banks) && k < |banks| && first <= last < WORD && banks[k].known
    requires !PlanFrom(banks, k, first, last).failed
    requires Selects(banks, k + 1, PlanFrom(banks, k + 1, InBank(banks[k], first, last).next, last),
                     MidPoint(banks[k], first, last), next)
    ensures Selects(banks, k, PlanFrom(banks, k, first, last), first, next)
  {
    var here := InBank(banks[k], first, last);
    StageInterval(banks[k], first, last);
    SelectsCons(banks, k, here.pick, PlanFrom(banks, k + 1, here.next, last),
                first, MidPoint(banks[k], first, last), next);
  }

  lemma PlanUnknown(banks: seq<Bank>, k: nat, first: nat, last: nat, next: nat)
    requires Layout(banks) && k < |banks| && first <= last < WORD && !banks[k].known
    requires !PlanFrom(banks, k, first, last).failed
    requires Selects(banks, k + 1, PlanFrom(banks, k + 1, first, last), first, next)
    ensures Selects(banks, k, PlanFrom(banks, k, first, last), first, next)
  {
    var rest := PlanFrom(banks, k + 1, first, last);
    SelectsCons(banks, k, NONE, rest, first, first, next);
    assert PlanFrom(banks, k, first, last) == Plan([NONE] + rest.picks, false, PickSize(NONE) + rest.count);
  }

  /** Past the top of memory the range restarts at 0, where nothing begins. */
  lemma PlanAtTop(banks: seq<Bank>, k: nat, first: nat, last: nat)
    requires Layout(banks) && k < |banks| && first <= last < WORD && banks[k].known && !WrapHazard(banks, k)
    requires !PlanFrom(banks, k, first, last).failed && MidPoint(banks[k], first, last) == WORD
    ensures Selects(banks, k + 1, PlanFrom(banks, k + 1, InBank(banks[k], first, last).next, last), WORD, WORD)
  {
    StageInterval(banks[k], first, last);
    assert forall j :: k < j < |banks| && banks[j].known ==> banks[j].start[0] != 0 || Wraps(banks, k, j);
    NothingAtZero(banks, k + 1, last);
    NonesSelectNothing(banks, k + 1, WORD);
  }

  lemma HazardAhead(banks: seq<Bank>, k: nat)
    requires Layout(banks) && k < |banks| && !WrapHazard(banks, k)
    ensures !WrapHazard(banks, k + 1)
  {
  }

  /** Address `a` is the end of a sector of a known bank from `k` on. */
  ghost predicate EndKnown(banks: seq<Bank>, k: nat, a: nat)
    requires Layout(banks)
  {
    exists j :: k <= j < |banks| && banks[j].known && HasEnd(banks[j], a)
  }

  /** A bank in which the range ends, and which does not fail, takes it to its end. */
  lemma StageEnds(b: Bank, first: nat, last: nat)
    requires Geometry(b) && first <= last < WORD && !InBank(b, first, last).failed && HasEnd(b, last)
    ensures MidPoint(b, first, last) == last + 1
  {
    StageInterval(b, first, last);
  }

  lemma {:induction false} PlannedInterval(banks: seq<Bank>, k: nat, first: nat, last: nat) returns (next: nat)
    requires Layout(banks) && k <= |banks| && last < WORD && !WrapHazard(banks, k)
    requires !PlanFrom(banks, k, first, last).failed
    ensures Selects(banks, k, PlanFrom(banks, k, first, last), first, next)
    ensures first < next ==> next <= last + 1
    ensures first > last ==> next == first
    ensures first <= last && EndKnown(banks, k, last) ==> next == last + 1
    decreases |banks| - k, 1
  {
    if k == |banks| || first > last {
      NonesSelectNothing(banks, k, first);
      next := first;
    } else if !banks[k].known {
      HazardAhead(banks, k);
      next := PlannedInterval(banks, k + 1, first, last);
      PlanUnknown(banks, k, first, last, next);
    } else {
      next := PlannedKnown(banks, k, first, last);
    }
  }

  lemma {:induction false} PlannedKnown(banks: seq<Bank>, k: nat, first: nat, last: nat) returns (next: nat)
    requires Layout(banks) && k < |banks| && first <= last < WORD && !WrapHazard(banks, k)
    requires banks[k].known && !PlanFrom(banks, k, first, last).failed
    ensures Selects(banks, k, PlanFrom(banks, k, first, last), first, next)
    ensures first < next ==> next <= last + 1
    ensures first > last ==> next == first
    ensures first <= last && EndKnown(banks, k, last) ==> next == last + 1
    decreases |banks| - k, 0
  {
    MidPointBounds(banks, k, first, last);
    var mid := MidPoint(banks[k], first, last);
    if HasEnd(banks[k], last) { StageEnds(banks[k], first, last); }
    if mid == WORD {
      PlanAtTop(banks, k, first, last);
      next := WORD;
    } else {
      HazardAhead(banks, k);
      next := PlannedInterval(banks, k + 1, mid, last);
    }
    PlanKnown(banks, k, first, last, next);
  }

  /** A plan is safe if, when it is carried out, the selected sectors of all
      banks together are one interval that starts at the requested start and
      does not pass the requested end. */
  ghost predicate SafePlan(banks: seq<Bank>, first: nat, last: nat)
    requires Layout(banks)
  {
    var p := PlanFrom(banks, 0, first, last);
    !p.failed && p.count > 0 ==>
      && p.count == TotalSize(p.picks)
      && exists e :: first <= e <= last && IsInterval(banks, p.picks, first, e)
  }

  ghost predicate IsInterval(banks: seq<Bank>, picks: seq<Pick>, first: nat, e: nat)
    requires |picks| == |banks|
  {
    forall a: nat :: Covered(banks, picks, a) <==> first <= a <= e
  }

  /** Safety, for any layout: unknown banks, gaps, overlaps, any table order. */
  lemma PlannerSafe(banks: seq<Bank>, first: nat, last: nat)
    requires Layout(banks) && last < WORD && !WrapHazard(banks, 0)
    ensures SafePlan(banks, first, last)
  {
    var p := PlanFrom(banks, 0, first, last);
    if !p.failed && p.count > 0 {
      var next := PlannedInterval(banks, 0, first, last);
      assert IsInterval(banks, p.picks, first, next - 1);
    }
  }

  /** A range that ends at the end of a known sector is selected whole or refused,
      for any layout. */
  lemma AcceptedWhole(banks: seq<Bank>, first: nat, last: nat)
    requires Layout(banks) && last < WORD && !WrapHazard(banks, 0) && EndKnown(banks, 0, last)
    ensures var p := PlanFrom(banks, 0, first, last);
            !p.failed && p.count > 0 ==> IsInterval(banks, p.picks, first, last)
  {
    var p := PlanFrom(banks, 0, first, last);
    if !p.failed && p.count > 0 {
      var next := PlannedInterval(banks, 0, first, last);
      assert IsInterval(banks, p.picks, first, next - 1);
    }
  }

  lemma {:induction false} PickedKnown(banks: seq<Bank>, k: nat, j: nat, first: nat, last: nat)
    requires Layout(banks) && k <= j < |banks| && PlanFrom(banks, k, first, last).picks[j - k] != NONE
    ensures banks[j].known
    decreases j - k
  {
    var p := PlanFrom(banks, k, first, last);
    if k < j {
      var next := if banks[k].known then InBank(banks[k], first, last).next else first;
      assert p.picks[j - k] == PlanFrom(banks, k + 1, next, last).picks[j - k - 1];
      PickedKnown(banks, k + 1, j, next, last);
    }
  }

  /** A plan that goes through selects the whole range if and only if the range ends
      at the end of a known sector. */
  lemma WholeIff(banks: seq<Bank>, first: nat, last: nat)
    requires Layout(banks) && first <= last < WORD && !WrapHazard(banks, 0)
    requires var p := PlanFrom(banks, 0, first, last); !p.failed && p.count > 0
    ensures IsInterval(banks, PlanFrom(banks, 0, first, last).picks, first, last) <==> EndKnown(banks, 0, last)
  {
    var p := PlanFrom(banks, 0, first, last);
    if EndKnown(banks, 0, last) {
      AcceptedWhole(banks, first, last);
    } else if IsInterval(banks, p.picks, first, last) {
      assert Covered(banks, p.picks, last) && !Covered(banks, p.picks, last + 1);
      var i :| 0 <= i < |banks| && InPick(banks[i], p.picks[i - 0], last);
      assert !InPick(banks[i], p.picks[i - 0], last + 1);
      PickedKnown(banks, 0, i, first, last);
      assert HasEnd(banks[i], last);
    }
  }

  /** A range that begins in one bank and ends inside another, off its sector ends and
      over a gap, goes through: the first bank is erased, and success reported. */
  lemma PartAccepted(banks: seq<Bank>, last: nat)
    requires banks == [Bank(true, [0], 0x1_0000), Bank(true, [0x2_0000], 0x1_0000)] && last == 0x2_4000
    ensures Layout(banks) && PlanFrom(banks, 0, 0, last) == Plan([Pick(0, 0), NONE], false, 1)
    ensures !EndKnown(banks, 0, last)
  {
    var a, b := banks[0], banks[1];
    StartUnique(a, 0, 0);
    assert SectorEnd(a, 0) == 0xFFFF && SectorEnd(b, 0) == 0x2_FFFF;
    assert InBank(a, 0, last) == Stage(Pick(0, 0), false, 0x1_0000);
    assert InBank(b, 0x1_0000, last) == Stage(NONE, false, 0x1_0000);
    assert PlanFrom(banks, 2, 0x1_0000, last) == Plan([], false, 0);
    assert PlanFrom(banks, 1, 0x1_0000, last) == Plan([NONE] + [], false, 0);
    assert [Pick(0, 0)] + [NONE] == [Pick(0, 0), NONE];
  }

  /** Address `a` lies in no sector of any bank. */
  ghost predicate Gap(banks: seq<Bank>, a: nat)
    requires Layout(banks)
  {
    forall i :: 0 <= i < |banks| && Geometry(banks[i]) ==> !(banks[i].start[0] <= a <= BankEnd(banks[i]))
  }

  lemma GapUncovered(banks: seq<Bank>, picks: seq<Pick>, a: nat)
    requires Layout(banks) && |picks| == |banks| && Gap(banks, a)
    ensures !Covered(banks, picks, a)
  {
    forall i | 0 <= i < |banks| && Geometry(banks[i]) ensures !InPick(banks[i], picks[i], a) {
      assert !(banks[i].start[0] <= a <= BankEnd(banks[i]));
    }
  }

  /** A range over a gap that ends at the end of a known sector is refused. */
  lemma GapRefused(banks: seq<Bank>, first: nat, last: nat, a: nat)
    requires Layout(banks) && last < WORD && !WrapHazard(banks, 0) && EndKnown(banks, 0, last)
    requires first <= a <= last && Gap(banks, a)
    ensures var p := PlanFrom(banks, 0, first, last); p.failed || p.count == 0
  {
    var p := PlanFrom(banks, 0, first, last);
    AcceptedWhole(banks, first, last);
    GapUncovered(banks, p.picks, a);
  }

  /** A range that begins inside a bank, but not at one of its sectors, is refused. */
  lemma {:induction false} StartInsideRefused(banks: seq<Bank>, k: nat, j: nat, first: nat, last: nat)
    requires Layout(banks) && Disjoint(banks) && k <= j < |banks| && first <= last && banks[j].known
    requires banks[j].start[0] <= first < BankEnd(banks[j]) && first !in banks[j].start
    ensures PlanFrom(banks, k, first, last).failed
    decreases j - k
  {
    if k < j {
      StartInsideRefused(banks, k + 1, j, first, last);
      if banks[k].known { StartsNowhere(banks[k], first); }
    }
  }

  lemma StartsNowhere(b: Bank, a: nat)
    requires Geometry(b) && !(b.start[0] <= a <= BankEnd(b))
    ensures StartingAt(b, a) < 0
  {
  }

  /** What a plan that goes through selects in a bank ends with the range, or with
      the bank and before the range. */
  lemma {:induction false} PickEnds(banks: seq<Bank>, k: nat, j: nat, first: nat, last: nat)
    requires Layout(banks) && k <= j < |banks| && !PlanFrom(banks, k, first, last).failed
    requires PlanFrom(banks, k, first, last).picks[j - k] != NONE
    ensures Geometry(banks[j])
    ensures HasEnd(banks[j], last) || BankEnd(banks[j]) < last
    decreases j - k
  {
    var p := PlanFrom(banks, k, first, last);
    if k < j {
      var next := if banks[k].known then InBank(banks[k], first, last).next else first;
      assert p.picks[j - k] == PlanFrom(banks, k + 1, next, last).picks[j - k - 1];
      PickEnds(banks, k + 1, j, next, last);
    }
  }

  /** A range that ends inside a bank, but not at the end of a sector, is refused
      when anything of that bank would be selected. */
  lemma EndInsideRefused(banks: seq<Bank>, j: nat, first: nat, last: nat)
    requires Layout(banks) && j < |banks| && Geometry(banks[j])
    requires last <= BankEnd(banks[j]) && !HasEnd(banks[j], last)
    ensures var p := PlanFrom(banks, 0, first, last); p.failed || p.picks[j] == NONE
  {
    var p := PlanFrom(banks, 0, first, last);
    if !p.failed && p.picks[j - 0] != NONE { PickEnds(banks, 0, j, first, last); }
  }

  // ----- the wrap at the top of the address space

  /** No two known banks share an address. */
  predicate Disjoint(banks: seq<Bank>)
    requires Layout(banks)
  {
    forall i, j :: 0 <= i < j < |banks| && banks[i].known && banks[j].known ==>
      BankEnd(banks[i]) < banks[j].start[0] || BankEnd(banks[j]) < banks[i].start[0]
  }

  /** A bank that neither holds `first` past its start nor reaches the top is
      passed over, or selected whole if `first` is its start. */
  lemma PassBank(b: Bank, first: nat)
    requires Geometry(b) && BankEnd(b) < WORD - 1 && (first <= b.start[0] || BankEnd(b) < first)
    ensures InBank(b, first, WORD - 1) ==
            if first == b.start[0] then Stage(Pick(0, |b.start| - 1), false, BankEnd(b) + 1)
            else Stage(NONE, false, first)
  {
    if first == b.start[0] {
      StartUnique(b, first, 0);
    } else {
      assert forall i :: 0 <= i < |b.start| ==> b.start[0] <= b.start[i] <= SectorEnd(b, i) <= BankEnd(b);
    }
  }

  /** From bank `k` on, a range up to the top that starts inside no bank is planned without error. */
  lemma {:induction false} NeverFails(banks: seq<Bank>, k: nat, first: nat)
    requires Layout(banks) && Disjoint(banks) && k <= |banks|
    requires forall m :: k <= m < |banks| && banks[m].known ==>
               BankEnd(banks[m]) < WORD - 1 && (first <= banks[m].start[0] || BankEnd(banks[m]) < first)
    ensures !PlanFrom(banks, k, first, WORD - 1).failed
    decreases |banks| - k
  {
    if k < |banks| && first <= WORD - 1 {
      var next := first;
      if banks[k].known {
        PassBank(banks[k], first);
        next := InBank(banks[k], first, WORD - 1).next;
      }
      NeverFails(banks, k + 1, next);
    }
  }

  /** Plan `p` for the banks from `k` on goes through and takes all of bank `j`. */
  predicate TakesWhole(banks: seq<Bank>, k: nat, p: Plan, j: nat)
    requires k <= j < |banks| && |p.picks| == |banks| - k
  {
    !p.failed && p.count > 0 && p.picks[j - k] == Pick(0, |banks[j].start| - 1)
  }

  lemma TakesWholeCons(banks: seq<Bank>, k: nat, first: nat, next: nat, j: nat)
    requires Layout(banks) && k < j < |banks| && first <= WORD - 1
    requires if banks[k].known then
               !InBank(banks[k], first, WORD - 1).failed && InBank(banks[k], first, WORD - 1).next == next
             else next == first
    requires TakesWhole(banks, k + 1, PlanFrom(banks, k + 1, next, WORD - 1), j)
    ensures TakesWhole(banks, k, PlanFrom(banks, k, first, WORD - 1), j)
  {
    assert PlanFrom(banks, k, first, WORD - 1).picks[1..] == PlanFrom(banks, k + 1, next, WORD - 1).picks;
  }

  lemma {:induction false} HazardAtZero(banks: seq<Bank>, i: nat, j: nat, k: nat)
    requires Layout(banks) && Disjoint(banks) && Wraps(banks, i, j) && i < k <= j
    ensures TakesWhole(banks, k, PlanFrom(banks, k, 0, WORD - 1), j)
    decreases j - k
  {
    var b := banks[k];
    if k == j {
      PassBank(b, 0);
      NeverFails(banks, k + 1, BankEnd(b) + 1);
    } else {
      HazardAtZero(banks, i, j, k + 1);
      if b.known {
        PassBank(b, 0);
      }
      TakesWholeCons(banks, k, 0, 0, j);
    }
  }

  lemma {:induction false} HazardRun(banks: seq<Bank>, i: nat, j: nat, k: nat)
    requires Layout(banks) && Disjoint(banks) && Wraps(banks, i, j) && k <= i
    ensures TakesWhole(banks, k, PlanFrom(banks, k, banks[i].start[|banks[i].start| - 1], WORD - 1), j)
    decreases i - k
  {
    var b := banks[k];
    var top := banks[i].start[|banks[i].start| - 1];
    if k == i {
      HazardAtZero(banks, i, j, k + 1);
      StartUnique(b, top, |b.start| - 1);
      EndUnique(b, WORD - 1, |b.start| - 1);
      TakesWholeCons(banks, k, top, 0, j);
    } else {
      HazardRun(banks, i, j, k + 1);
      if b.known {
        PassBank(b, top);
      }
      TakesWholeCons(banks, k, top, top, j);
    }
  }

  lemma HazardUnsafe(banks: seq<Bank>, i: nat, j: nat)
    requires Layout(banks) && Disjoint(banks) && Wraps(banks, i, j)
    ensures !SafePlan(banks, banks[i].start[|banks[i].start| - 1], WORD - 1)
  {
    var top := banks[i].start[|banks[i].start| - 1];
    HazardRun(banks, i, j, 0);
    var p := PlanFrom(banks, 0, top, WORD - 1);
    assert InPick(banks[j], p.picks[j - 0], 0);
    assert Covered(banks, p.picks, 0);
  }

  /** For disjoint banks, the planner is safe for every range if and only if no
      known bank that reaches the top of memory has a known bank at address 0
      later in the table.  Otherwise erasing the top sector also selects the
      whole bank at 0. */
  lemma PlannerSafeIff(banks: seq<Bank>)
    requires Layout(banks) && Disjoint(banks)
    ensures (forall first: nat, last: nat :: last < WORD ==> SafePlan(banks, first, last))
            <==> !WrapHazard(banks, 0)
  {
    if WrapHazard(banks, 0) {
      var i, j :| Wraps(banks, i, j);
      HazardUnsafe(banks, i, j);
    } else {
      forall first: nat, last: nat | last < WORD ensures SafePlan(banks, first, last) {
        PlannerSafe(banks, first, last);
      }
    }
  }
}
