/** The floppy reader: blocks to track, head and sector, one READ per track
    side, read retries nested in recalibration retries.
 */
module Floppy {
  import opened Arithmetic

  const FDC_RW_RETRIES := 3
  const FDC_CAL_RETRIES := 3

  /** Sectors per track side, heads, and bytes per sector. */
  datatype Geometry = Geometry(sect: nat, head: nat, size: nat)

  predicate Proper(g: Geometry) {
    0 < g.sect < 256 && 0 < g.head < 256 && 0 < g.size
  }

  /** Where a block lies; sectors count from 1. */
  datatype Place = Place(track: nat, head: nat, sector: nat)

  function Locate(g: Geometry, blnr: nat): Place
    requires Proper(g)
  {
    var within := Remainder(blnr, PerTrack(g));
    Place(Quotient(blnr, PerTrack(g)), Quotient(within, g.sect), Remainder(within, g.sect) + 1)
  }

  /** Sectors on both sides of a track. */
  function PerTrack(g: Geometry): (n: nat)
    requires Proper(g)
    ensures 0 < n
  {
    MulPositive(g.sect, g.head);
    g.sect * g.head
  }

  // ----- the block mapping

  lemma Regroup(t: int, heads: int, sect: int, h: int)
    ensures t * (sect * heads) + h * sect == (t * heads + h) * sect
  {
    assert t * (sect * heads) == (t * heads) * sect;
  }

  /** Track side and sector of a block, without the product in between. */
  lemma LocateParts(g: Geometry, blnr: nat)
    requires Proper(g)
    ensures var p := Locate(g, blnr);
            && p.head < g.head
            && 1 <= p.sector <= g.sect
            && p.sector - 1 == blnr % g.sect
            && p.track * g.head + p.head == blnr / g.sect
  {
    var per := g.sect * g.head;
    var t, r := blnr / per, blnr % per;
    var h, s := r / g.sect, r % g.sect;
    assert blnr == t * per + r;
    assert r == h * g.sect + s;
    assert h * g.sect < g.head * g.sect;
    MulCancel(h, g.head, g.sect);
    Regroup(t, g.head, g.sect, h);
    DivModUnique(blnr, g.sect, t * g.head + h, s);
  }

  /** Track, head and sector determine the block. */
  lemma LocateInjective(g: Geometry, a: nat, b: nat)
    requires Proper(g) && Locate(g, a) == Locate(g, b)
    ensures a == b
  {
    LocateParts(g, a);
    LocateParts(g, b);
    SameDivision(a, b, g.sect);
  }

  lemma SameDivision(a: nat, b: nat, d: nat)
    requires 0 < d && a / d == b / d && a % d == b % d
    ensures a == b
  {
    assert a == a / d * d + a % d && b == b / d * d + b % d;
  }

  lemma SideUnique(heads: nat, t: nat, h: nat, t': nat, h': nat)
    requires h < heads && h' < heads && t * heads + h == t' * heads + h'
    ensures t == t' && h == h'
  {
    DivModUnique(t * heads + h, heads, t, h);
    DivModUnique(t * heads + h, heads, t', h');
  }

  lemma SameQuotient(b: nat, q: nat, d: nat)
    requires 0 < d && b % d + q < d
    ensures (b + q) / d == b / d && (b + q) % d == b % d + q
  {
    assert b == b / d * d + b % d;
    DivModUnique(b + q, d, b / d, b % d + q);
  }

  /** Blocks up to the end of a track side are consecutive sectors of it. */
  lemma LocateRun(g: Geometry, b: nat, q: nat)
    requires Proper(g) && b % g.sect + q < g.sect
    ensures Locate(g, b + q) == Locate(g, b).(sector := Locate(g, b).sector + q)
  {
    SameQuotient(b, q, g.sect);
    LocateParts(g, b);
    LocateParts(g, b + q);
    var p, p' := Locate(g, b), Locate(g, b + q);
    SideUnique(g.head, p.track, p.head, p'.track, p'.head);
  }

  // ----- the drive

  type Disk = Place -> seq<Byte>

  datatype SeekResult = SeekTimeout | SeekBadStatus | SeekDone

  /** The drive as the code sees it: the medium, and for the n-th seek, READ
      and recalibration whether it goes through; `fault` is the byte at which
      the n-th transfer breaks off, if it lies inside the transfer. */
  datatype Drive = Drive(
    disk: Disk,
    seek: nat -> SeekResult,
    accepts: nat -> bool,
    fault: nat -> nat,
    recalibrates: nat -> bool)

  ghost predicate Formatted(d: Drive, g: Geometry) {
    forall p: Place :: |d.disk(p)| == g.size
  }

  /** A drive that takes every READ and carries it to its end. */
  ghost predicate Smooth(d: Drive, g: Geometry) {
    forall n :: d.accepts(n) && g.size * g.sect <= d.fault(n)
  }

  /** The seeks from number `a` up to `b` go through. */
  ghost predicate SeeksDone(d: Drive, a: nat, b: int) {
    forall i: nat :: a <= i < b ==> d.seek(i).SeekDone?
  }

  /** Of `n` seeks from number `a` on, the first that does not go through is not
      the first one, and ends with a bad status. */
  ghost predicate BadLaterSeek(d: Drive, a: nat, n: int) {
    exists k: nat :: BadAt(d, a, n, k)
  }

  ghost predicate BadAt(d: Drive, a: nat, n: int, k: nat) {
    1 <= k < n && SeeksDone(d, a, a + k) && d.seek(a + k).SeekBadStatus?
  }

  /** A READ command as issued, and the track the arm is over; the command block
      holds bytes. */
  datatype Read = Read(arm: nat, track: Byte, head: Byte, sector: Byte, lastSector: Byte, blocks: nat)

  /** It asks for sectors of one track side only, and the arm is over that track. */
  predicate StaysOnSide(r: Read) {
    r.arm == r.track && 1 <= r.sector && r.sector + r.blocks as int - 1 <= r.lastSector
  }

  /** Recalibrations number `a` up to `b` go through. */
  ghost predicate RecalsDone(d: Drive, a: nat, b: nat) {
    forall i :: a <= i < b ==> d.recalibrates(i)
  }

  /** READs number `a` up to `b` are taken. */
  ghost predicate Taken(d: Drive, a: nat, b: nat) {
    forall i :: a <= i < b ==> d.accepts(i)
  }

  /** The transfer of READ number `i` breaks off. */
  predicate Broke(d: Drive, g: Geometry, i: nat, r: Read) {
    d.fault(i) < g.size * r.blocks
  }

  /** How many of the READs in `log` from number `a` on broke off. */
  function Breaks(d: Drive, g: Geometry, log: seq<Read>, a: nat): nat {
    if |log| <= a then 0
    else Breaks(d, g, log[..|log| - 1], a) + if Broke(d, g, |log| - 1, log[|log| - 1]) then 1 else 0
  }

  lemma BreaksStep(d: Drive, g: Geometry, log: seq<Read>, a: nat, r: Read)
    requires a <= |log|
    ensures Breaks(d, g, log + [r], a) == Breaks(d, g, log, a) + if Broke(d, g, |log|, r) then 1 else 0
  {
    assert (log + [r])[..|log|] == log;
  }

  /** The bytes a READ of `n` sectors hands over: from sector to sector of one side
      of the track the arm is over. */
  function Transfer(d: Drive, track: nat, head: nat, sector: nat, n: nat): seq<Byte> {
    if n == 0 then [] else Transfer(d, track, head, sector, n - 1) + d.disk(Place(track, head, sector + n - 1))
  }

  /** The contents of `n` blocks from `b` on. */
  function Blocks(d: Drive, g: Geometry, b: nat, n: nat): seq<Byte>
    requires Proper(g)
  {
    if n == 0 then [] else Blocks(d, g, b, n - 1) + d.disk(Locate(g, b + n - 1))
  }

  /** Bytes in `n` blocks. */
  function Bytes(g: Geometry, n: nat): nat {
    if n == 0 then 0 else Bytes(g, n - 1) + g.size
  }

  lemma {:induction false} BytesIsProduct(g: Geometry, n: nat)
    ensures Bytes(g, n) == g.size * n
  {
    if n > 0 {
      BytesIsProduct(g, n - 1);
      assert g.size * n == g.size * (n - 1) + g.size;
    }
  }

  lemma {:induction false} BytesAdd(g: Geometry, n: nat, m: nat)
    ensures Bytes(g, n + m) == Bytes(g, n) + Bytes(g, m)
    decreases m
  {
    if m > 0 { BytesAdd(g, n, m - 1); }
  }

  lemma PastChunk(g: Geometry, n: nat, c: nat)
    ensures Bytes(g, n + c) == Bytes(g, n) + g.size * c
  {
    BytesIsProduct(g, c);
    BytesAdd(g, n, c);
  }

  lemma {:induction false} BlocksLength(d: Drive, g: Geometry, b: nat, n: nat)
    requires Proper(g) && Formatted(d, g)
    ensures |Blocks(d, g, b, n)| == Bytes(g, n)
  {
    if n > 0 { BlocksLength(d, g, b, n - 1); }
  }

  lemma {:induction false} BlocksConcat(d: Drive, g: Geometry, b: nat, n: nat, m: nat)
    requires Proper(g)
    ensures Blocks(d, g, b, n + m) == Blocks(d, g, b, n) + Blocks(d, g, b + n, m)
    decreases m
  {
    if m == 0 {
      assert Blocks(d, g, b, n) + [] == Blocks(d, g, b, n);
    } else {
      BlocksConcat(d, g, b, n, m - 1);
      assert n + m - 1 == n + (m - 1) && b + (n + m) - 1 == b + n + m - 1;
    }
  }

  // ----- chunks

  /** Blocks that one READ takes from `b` on when `n` are wanted. */
  function ChunkSize(g: Geometry, b: nat, n: nat): nat
    requires Proper(g)
  {
    var left := g.sect - b % g.sect;
    if left > n then n else left
  }

  /** Track sides that `n` blocks from `b` on touch, which is the number of READs
      needed without errors; an empty request still issues one. */
  function Sides(g: Geometry, b: nat, n: nat): (k: int)
    requires Proper(g)
  {
    if n == 0 then 1 else (b + n - 1) / g.sect - b / g.sect + 1
  }

  lemma SidesPositive(g: Geometry, b: nat, n: nat)
    requires Proper(g)
    ensures 1 <= Sides(g, b, n)
  {
    if n > 0 { DivAscends(b, b + n - 1, g.sect); }
  }

  lemma DivAscends(a: nat, b: nat, d: nat)
    requires 0 < d && a <= b
    ensures a / d <= b / d
  {
    var q, q' := a / d, b / d;
    assert a == q * d + a % d && b == q' * d + b % d;
    assert (q' + 1) * d == q' * d + d;
    MulCancel(q, q' + 1, d);
  }

  lemma OneSide(g: Geometry, b: nat, n: nat)
    requires Proper(g) && ChunkSize(g, b, n) == n
    ensures Sides(g, b, n) == 1
  {
    if n > 0 {
      var q, r := b / g.sect, b % g.sect;
      assert b == q * g.sect + r;
      DivModUnique(b + n - 1, g.sect, q, r + n - 1);
    }
  }

  /** After a chunk that is not the last, the next track side begins. */
  lemma NextChunk(g: Geometry, b: nat, n: nat)
    requires Proper(g) && ChunkSize(g, b, n) < n
    ensures var c := ChunkSize(g, b, n);
            && 0 < c
            && ChunkSize(g, b + c, n - c) == (if g.sect > n - c then n - c else g.sect)
            && Sides(g, b, n) == 1 + Sides(g, b + c, n - c)
  {
    var c := ChunkSize(g, b, n);
    var q, r := b / g.sect, b % g.sect;
    assert b == q * g.sect + r;
    assert b + c == (q + 1) * g.sect + 0;
    DivModUnique(b + c, g.sect, q + 1, 0);
    assert b + c + (n - c) - 1 == b + n - 1;
  }

  // ----- the reader

  /** What a READ for `n` blocks from `b` on puts into the command block. */
  function ReadCommand(g: Geometry, arm: nat, b: nat, n: nat): Read
    requires Proper(g)
  {
    var p := Locate(g, b);
    Read(arm, p.track % 256, p.head % 256, p.sector % 256, g.sect % 256, n)
  }

  /** Blocks that the one-byte track number can reach. */
  function Capacity(g: Geometry): nat {
    256 * (g.sect * g.head)
  }

  lemma TrackBound(g: Geometry, b: nat)
    requires Proper(g) && b < Capacity(g)
    ensures Locate(g, b).track < 256
  {
    var per := g.sect * g.head;
    assert per > 0 && b == b / per * per + b % per;
    MulCancel(b / per, 256, per);
  }

  /** A run of blocks on one track side is a run of its sectors. */
  lemma {:induction false} SideRun(d: Drive, g: Geometry, b: nat, n: nat, p: Place)
    requires Proper(g) && n <= g.sect - b % g.sect && p == Locate(g, b)
    ensures Transfer(d, p.track, p.head, p.sector, n) == Blocks(d, g, b, n)
    decreases n
  {
    if n > 0 {
      var q := n - 1;
      SideRun(d, g, b, q, p);
      assert Locate(g, b + q) == p.(sector := p.sector + q) by { LocateRun(g, b, q); }
      assert b + n - 1 == b + q && p.sector + n - 1 == p.sector + q;
    }
  }

  /** Inside the first 256 tracks the command bytes name the right place. */
  lemma CommandNames(g: Geometry, arm: nat, b: nat, n: nat)
    requires Proper(g) && b < Capacity(g)
    ensures var r, p := ReadCommand(g, arm, b, n), Locate(g, b);
            r.track == p.track && r.head == p.head && r.sector == p.sector
  {
    LocateParts(g, b);
    TrackBound(g, b);
  }

  lemma ReadStaysOnSide(g: Geometry, arm: nat, b: nat, n: nat)
    requires Proper(g) && n <= g.sect - b % g.sect && arm == Locate(g, b).track % 256
    ensures StaysOnSide(ReadCommand(g, arm, b, n))
  {
    var sector := Locate(g, b).sector;
    assert 1 <= sector <= g.sect && sector - 1 == b % g.sect by { LocateParts(g, b); }
    assert sector % 256 == sector && g.sect % 256 == g.sect;
  }

  /** The variables of the retry loop. */
  datatype Loop = Loop(offset: nat, blocks: nat, readblk: nat, rw: nat, cal: nat)

  /** Where a pass through the loop leads. */
  datatype Status = Repeat | SeekNext | Finished | Failed

  /** The outcome of a transfer error: READ again, seek and READ again, or stop. */
  datatype Verdict = Again | Reseek | GiveUp

  class Reader {
    const drive: Drive
    const g: Geometry
    var blnr: nat             // pCMD->blnr
    var seeks: nat
    var recals: nat
    var arm: nat              // the track the arm is over
    var interrupts: bool
    var issued: seq<Read>      // the READ commands issued

    constructor (drive: Drive, g: Geometry, blnr: nat)
      ensures this.drive == drive && this.g == g && this.blnr == blnr && seeks == 0 && issued == [] && interrupts
    {
      this.drive, this.g, this.blnr := drive, g, blnr;
      seeks, recals, arm, interrupts, issued := 0, 0, 0, true, [];
    }

    /** The arm is over the track of the current block. */
    ghost predicate OnTrack()
      requires Proper(g)
      reads this`arm, this`blnr
    {
      arm == Locate(g, blnr).track % 256
    }

    /** `fdc_seek`: to the track of the current block. */
    method Seek() returns (r: SeekResult)
      requires Proper(g)
      modifies this`seeks, this`arm
      ensures seeks == old(seeks) + 1 && r == drive.seek(old(seeks))
      ensures if r.SeekDone? then OnTrack() else arm == old(arm)
    {
      r := drive.seek(seeks);
      seeks := seeks + 1;
      if r.SeekDone? { arm := Locate(g, blnr).track % 256; }
    }

    /** `fdc_recalibrate`: to track 0. */
    method Recalibrate() returns (ok: bool)
      modifies this`recals, this`arm
      ensures recals == old(recals) + 1 && ok == drive.recalibrates(old(recals))
      ensures arm == if ok then 0 else old(arm)
    {
      ok := drive.recalibrates(recals);
      recals := recals + 1;
      if ok { arm := 0; }
    }

    /** One READ: the transfer loop into `buffer` at `offset`, broken off where
        the drive breaks off. */
    method ReadChunk(buffer: array<Byte>, offset: nat, readblk: nat) returns (accepted: bool, complete: bool)
      requires Proper(g) && Formatted(drive, g)
      requires readblk <= g.sect - blnr % g.sect && (readblk > 0 ==> blnr < Capacity(g))
      requires offset + Bytes(g, readblk) <= buffer.Length && OnTrack()
      modifies this`issued, buffer
      ensures issued == old(issued) + [ReadCommand(g, arm, blnr, readblk)]
      ensures buffer[..offset] == old(buffer[..offset])
      ensures accepted && complete ==>
                buffer[offset..offset + Bytes(g, readblk)] == Blocks(drive, g, blnr, readblk)
      ensures accepted == drive.accepts(|old(issued)|)
      ensures accepted ==> (complete <==> !Broke(drive, g, |old(issued)|, issued[|old(issued)|]))
      ensures Smooth(drive, g) ==> accepted && complete
    {
      var cmd := ReadCommand(g, arm, blnr, readblk);
      accepted := drive.accepts(|issued|);
      var stop := drive.fault(|issued|);
      issued := issued + [cmd];
      complete := false;
      if !accepted { return; }
      var data := Transfer(drive, arm, cmd.head, cmd.sector, readblk);
      if readblk > 0 {
        CommandNames(g, arm, blnr, readblk);
        SideRun(drive, g, blnr, readblk, Locate(g, blnr));
      }
      BlocksLength(drive, g, blnr, readblk);
      BytesIsProduct(g, readblk);
      ChunkBytes(readblk);
      complete := Pump(buffer, offset, data, g.size * readblk, stop);
    }

    lemma ChunkBytes(n: nat)
      requires n <= g.sect
      ensures g.size * n <= g.size * g.sect
    {
    }

    /** The byte loop: takes `len` bytes from the FIFO unless byte `stop` reports an error. */
    method Pump(buffer: array<Byte>, offset: nat, data: seq<Byte>, len: nat, stop: nat) returns (complete: bool)
      requires |data| == len && offset + len <= buffer.Length
      modifies buffer
      ensures buffer[..offset] == old(buffer[..offset])
      ensures complete <==> len <= stop
      ensures complete ==> buffer[offset..offset + len] == data
    {
      var i := 0;
      while i < len
        invariant 0 <= i <= len && i <= stop
        invariant buffer[..offset] == old(buffer[..offset])
        invariant buffer[offset..offset + i] == data[..i]
      {
        if i == stop { return false; }
        buffer[offset + i] := data[i];
        assert buffer[offset..offset + i] == data[..i];
        i := i + 1;
      }
      complete := true;
    }

    /** `n` blocks have arrived in `buffer`, in order, and are accounted for. */
    ghost predicate Progress(buffer: array<Byte>, from: nat, n: nat)
      requires Proper(g)
      reads this`blnr, buffer
    {
      && blnr == from + n
      && Bytes(g, n) <= buffer.Length
      && buffer[..Bytes(g, n)] == Blocks(drive, g, from, n)
    }

    /** A finished chunk extends what has arrived. */
    lemma ProgressStep(buffer: array<Byte>, from: nat, n: nat, c: nat)
      requires Proper(g) && Formatted(drive, g) && Bytes(g, n) + Bytes(g, c) <= buffer.Length
      requires buffer[..Bytes(g, n)] == Blocks(drive, g, from, n)
      requires buffer[Bytes(g, n)..Bytes(g, n) + Bytes(g, c)] == Blocks(drive, g, from + n, c)
      ensures Bytes(g, n + c) == Bytes(g, n) + Bytes(g, c)
      ensures buffer[..Bytes(g, n + c)] == Blocks(drive, g, from, n + c)
    {
      BlocksConcat(drive, g, from, n, c);
      BytesAdd(g, n, c);
      assert buffer[..Bytes(g, n + c)] == buffer[..Bytes(g, n)] + buffer[Bytes(g, n)..Bytes(g, n) + Bytes(g, c)];
    }

    /** What to do about a transfer error. */
    method AfterError(rw: nat, cal: nat) returns (verdict: Verdict, retriesrw: nat, retriescal: nat)
      requires rw <= FDC_RW_RETRIES + 1 && cal <= FDC_CAL_RETRIES + 1
      modifies this`recals, this`arm
      ensures verdict.Again? || verdict.Reseek? ==>
                && retriesrw <= FDC_RW_RETRIES + 1 && retriescal <= FDC_CAL_RETRIES + 1
                && retriesrw + 5 * retriescal == rw + 5 * cal + 1
      ensures verdict.Again? ==> arm == old(arm) && recals == old(recals) && retriescal == cal
      ensures verdict.Reseek? ==> recals == old(recals) + 1 && drive.recalibrates(old(recals)) && retriescal == cal + 1
      ensures verdict.GiveUp? ==>
                || (rw + 5 * cal == 24 && recals == old(recals))
                || (recals == old(recals) + 1 && !drive.recalibrates(old(recals)))
    {
      retriesrw, retriescal := rw + 1, cal;
      if rw > FDC_RW_RETRIES {
        retriescal := retriescal + 1;
        if cal > FDC_CAL_RETRIES {
          return GiveUp, retriesrw, retriescal;
        }
        var ok := Recalibrate();
        if !ok {
          return GiveUp, retriesrw, retriescal;
        }
        return Reseek, 0, retriescal;
      }
      verdict := Again;
    }

    /** One READ and, when it is complete, the bookkeeping after it. */
    method TakeChunk(buffer: array<Byte>, offset: nat, readblk: nat, ghost from: nat, ghost n: nat)
        returns (accepted: bool, complete: bool)
      requires Proper(g) && Formatted(drive, g) && Progress(buffer, from, n) && offset == Bytes(g, n)
      requires readblk <= g.sect - blnr % g.sect && (readblk > 0 ==> blnr < Capacity(g))
      requires offset + Bytes(g, readblk) <= buffer.Length && OnTrack()
      modifies this`issued, this`blnr, buffer
      ensures |issued| == |old(issued)| + 1 && old(issued) <= issued && StaysOnSide(issued[|issued| - 1])
      ensures accepted == drive.accepts(|old(issued)|)
      ensures accepted ==> (complete <==> !Broke(drive, g, |old(issued)|, issued[|old(issued)|]))
      ensures !(accepted && complete) ==> blnr == old(blnr)
      ensures Progress(buffer, from, if accepted && complete then n + readblk else n)
      ensures Smooth(drive, g) ==> accepted && complete
    {
      ReadStaysOnSide(g, arm, blnr, readblk);
      accepted, complete := ReadChunk(buffer, offset, readblk);
      if accepted && complete {
        ProgressStep(buffer, from, n, readblk);
        blnr := blnr + readblk;
      }
    }

    /** Where the next chunk goes in the buffer. */
    method Past(offset: nat, ghost n: nat, readblk: nat) returns (past: nat)
      requires offset == Bytes(g, n)
      ensures past == Bytes(g, n + readblk)
    {
      PastChunk(g, n, readblk);
      past := offset + g.size * readblk;
    }

    /** The loop invariant of `ReadData`. */
    ghost predicate Running(buffer: array<Byte>, from: nat, count: nat, arrived: nat, st: Loop)
      requires Proper(g)
      reads this`blnr, buffer
    {
      && arrived <= count && st.blocks == count - arrived && st.offset == Bytes(g, arrived)
      && Progress(buffer, from, arrived)
      && st.readblk == ChunkSize(g, blnr, st.blocks)
      && st.rw <= FDC_RW_RETRIES + 1 && st.cal <= FDC_CAL_RETRIES + 1
    }

    /** READs issued, less the failed ones, plus those still needed. */
    ghost function Account(st: Loop): int
      requires Proper(g)
      reads this`issued, this`blnr
    {
      |issued| - st.rw - 5 * st.cal + Sides(g, blnr, st.blocks)
    }

    lemma ChunkFits(buffer: array<Byte>, from: nat, count: nat, arrived: nat, st: Loop)
      requires Proper(g) && Running(buffer, from, count, arrived, st)
      requires Bytes(g, count) <= buffer.Length && from + count <= Capacity(g)
      ensures st.readblk <= st.blocks && st.readblk <= g.sect - blnr % g.sect
      ensures st.readblk > 0 ==> blnr < Capacity(g)
      ensures st.offset + Bytes(g, st.readblk) <= buffer.Length
      ensures st.readblk == 0 ==> st.blocks == 0
    {
      BytesAdd(g, arrived, st.readblk);
      BytesAdd(g, arrived + st.readblk, st.blocks - st.readblk);
    }

    /** A chunk is complete and more blocks are wanted. */
    lemma Advance(b: nat, st: Loop, st': Loop)
      requires Proper(g) && st.readblk == ChunkSize(g, b, st.blocks) && st.readblk < st.blocks
      requires st'.blocks == st.blocks - st.readblk
      requires st'.readblk == if g.sect > st'.blocks then st'.blocks else g.sect
      ensures st'.readblk == ChunkSize(g, b + st.readblk, st'.blocks)
      ensures Sides(g, b, st.blocks) == 1 + Sides(g, b + st.readblk, st'.blocks)
      ensures 0 < st.readblk
    {
      NextChunk(g, b, st.blocks);
    }

    /** After a transfer that broke off. */
    method Retry(st: Loop) returns (status: Status, next: Loop)
      requires st.rw <= FDC_RW_RETRIES + 1 && st.cal <= FDC_CAL_RETRIES + 1
      modifies this`recals, this`arm
      ensures !status.Finished?
      ensures !status.Failed? ==>
                && next == st.(rw := next.rw, cal := next.cal)
                && next.rw <= FDC_RW_RETRIES + 1 && next.cal <= FDC_CAL_RETRIES + 1
                && next.rw + 5 * next.cal == st.rw + 5 * st.cal + 1
                && recals - old(recals) == next.cal - st.cal == (if status.SeekNext? then 1 else 0)
                && RecalsDone(drive, old(recals), recals)
      ensures status.Repeat? ==> arm == old(arm)
      ensures status.Failed? ==>
                || (st.rw + 5 * st.cal == 24 && recals == old(recals))
                || (recals == old(recals) + 1 && !drive.recalibrates(old(recals)))
    {
      var verdict, rw, cal := AfterError(st.rw, st.cal);
      next := st.(rw := rw, cal := cal);
      status := match verdict case GiveUp => Failed case Again => Repeat case Reseek => SeekNext;
    }

    /** What one pass through the loop has met: the READ after those in `log` refused,
        broken off or complete, a recalibration after every fifth that broke off. */
    ghost predicate Passed(status: Status, st: Loop, next: Loop, log: seq<Read>, recals0: nat, sides: int)
      requires Proper(g)
      reads this`issued, this`recals, this`blnr
    {
      var n := |log|;
      && n < |issued| && recals0 <= recals
      && var broke := Broke(drive, g, n, issued[n]);
      if status.Failed? then
        !drive.accepts(n) ||
        (broke && ((st.rw + 5 * st.cal == 24 && recals == recals0) ||
                   (recals == recals0 + 1 && !drive.recalibrates(recals0))))
      else
        && drive.accepts(n) && RecalsDone(drive, recals0, recals)
        && (status.Finished? ==> !broke)
        && next.rw + 5 * next.cal == st.rw + 5 * st.cal + (if broke then 1 else 0)
        && recals - recals0 == next.cal - st.cal
        && sides - (if status.Finished? then 1 else Sides(g, blnr, next.blocks)) + next.cal - st.cal
           == (if status.SeekNext? then 1 else 0)
    }

    /** One pass through the retry loop, up to the point where it starts over. */
    method Round(buffer: array<Byte>, st: Loop, ghost from: nat, ghost count: nat, ghost arrived: nat)
        returns (status: Status, next: Loop, ghost got: nat)
      requires Proper(g) && Formatted(drive, g) && Running(buffer, from, count, arrived, st)
      requires Bytes(g, count) <= buffer.Length && from + count <= Capacity(g) && OnTrack()
      modifies this`issued, this`blnr, this`recals, this`arm, buffer
      ensures old(issued) <= issued && |issued| == |old(issued)| + 1 && StaysOnSide(issued[|issued| - 1])
      ensures got <= count && Progress(buffer, from, got)
      ensures status.Repeat? || status.SeekNext? ==>
                && Running(buffer, from, count, got, next) && Account(next) == old(Account(st))
                && (next.blocks < st.blocks || (next.blocks == st.blocks && next.rw + 5 * next.cal > st.rw + 5 * st.cal))
      ensures status.Finished? ==> got == count
      ensures status.Finished? ==> |issued| == old(Account(st)) + st.rw + 5 * st.cal
      ensures Smooth(drive, g) ==> status.Finished? || (status.SeekNext? && next.rw == st.rw && next.cal == st.cal)
      ensures status.Repeat? ==> OnTrack()
      ensures Passed(status, st, next, old(issued), old(recals), Sides(g, old(blnr), st.blocks))
    {
      ChunkFits(buffer, from, count, arrived, st);
      ghost var b := blnr;
      var accepted, complete := TakeChunk(buffer, st.offset, st.readblk, from, arrived);
      next, got := st, arrived;
      if !accepted { return Failed, next, got; }
      if !complete {
        status, next := Retry(st);
        return;
      }
      var past := Past(st.offset, arrived, st.readblk);
      got := arrived + st.readblk;
      var blocks: nat := st.blocks - st.readblk;
      var readblk := if g.sect > blocks then blocks else g.sect;
      next := Loop(past, blocks, readblk, st.rw, st.cal);
      if blocks == 0 {
        OneSide(g, b, st.blocks);
        return Finished, next, got;
      }
      Advance(b, st, next);
      status := SeekNext;
    }

    /** What the loop keeps about the READs and the seeks. */
    ghost predicate Logged(st: Loop, before: seq<Read>, total: int, firstSeek: nat)
      requires Proper(g)
      reads this`issued, this`blnr, this`seeks, this`arm
    {
      && before <= issued && Account(st) == |before| + total
      && (forall i :: |before| <= i < |issued| ==> StaysOnSide(issued[i]))
      && seeks > firstSeek && drive.seek(seeks - 1).SeekDone? && OnTrack()
    }

    /** The counters say how many READs have broken off, and everything else has gone
        through: a seek for each track side and each recalibration, `due` still to come. */
    ghost predicate Tallied(st: Loop, due: nat, before: seq<Read>, total: int, firstSeek: nat, firstRecal: nat)
      requires Proper(g)
      reads this`issued, this`recals, this`seeks, this`blnr
    {
      && st.rw + 5 * st.cal == Breaks(drive, g, issued, |before|)
      && recals == firstRecal + st.cal
      && seeks + due == firstSeek + 1 + total - Sides(g, blnr, st.blocks) + st.cal
      && SeeksDone(drive, firstSeek, seeks) && RecalsDone(drive, firstRecal, recals) && Taken(drive, |before|, |issued|)
    }

    /** The outcome: success if and only if every seek, recalibration and READ command
        went through and fewer than 25 transfers broke off; and what that took. */
    ghost predicate Settled(ok: bool, before: seq<Read>, total: int, firstSeek: nat, firstRecal: nat)
      reads this`issued, this`seeks, this`recals
    {
      var broken := Breaks(drive, g, issued, |before|);
      && broken <= 25
      && (ok <==> SeeksDone(drive, firstSeek, seeks) && RecalsDone(drive, firstRecal, recals) &&
                  Taken(drive, |before|, |issued|) && broken < 25)
      && (ok ==> |issued| == |before| + total + broken && recals == firstRecal + broken / 5 && seeks == firstSeek + total + broken / 5)
    }

    /** What the READ after those in `log` and its aftermath add to the tally. */
    lemma TallyOn(status: Status, st: Loop, next: Loop, log: seq<Read>, recals0: nat, sides: int,
                  before: seq<Read>, total: int, firstSeek: nat, firstRecal: nat)
      requires Proper(g) && Passed(status, st, next, log, recals0, sides)
      requires before <= log <= issued && |issued| == |log| + 1
      requires st.rw <= FDC_RW_RETRIES + 1 && st.cal <= FDC_CAL_RETRIES + 1
      requires st.rw + 5 * st.cal == Breaks(drive, g, log, |before|)
      requires recals0 == firstRecal + st.cal && seeks == firstSeek + 1 + total - sides + st.cal
      requires SeeksDone(drive, firstSeek, seeks) && RecalsDone(drive, firstRecal, recals0) && Taken(drive, |before|, |log|)
      requires status.Finished? ==> |issued| == |before| + total + st.rw + 5 * st.cal
      ensures TalliedOn(status, next, before, total, firstSeek, firstRecal)
    {
      var n := |log|;
      var broke := if Broke(drive, g, n, issued[n]) then 1 else 0;
      assert Breaks(drive, g, issued, |before|) == st.rw + 5 * st.cal + broke by {
        assert issued == log + [issued[n]];
        BreaksStep(drive, g, log, |before|, issued[n]);
      }
      if status.Failed? {
        TallyFailed(st.rw + 5 * st.cal, n, recals0, before, total, firstSeek, firstRecal);
      } else {
        TakenOn(|before|, n);
        RecalsJoin(firstRecal, recals0, recals);
        if status.Finished? { TallyFinished(st.rw, st.cal, before, total, firstSeek, firstRecal); }
      }
    }

    lemma TakenOn(a: nat, n: nat)
      requires Taken(drive, a, n) && drive.accepts(n)
      ensures Taken(drive, a, n + 1)
    {
    }

    lemma TallyFailed(count: nat, n: nat, recals0: nat, before: seq<Read>, total: int, firstSeek: nat, firstRecal: nat)
      requires |before| <= n && |issued| == n + 1 && count <= 24 && firstRecal <= recals0
      requires Breaks(drive, g, issued, |before|) == count + if Broke(drive, g, n, issued[n]) then 1 else 0
      requires !drive.accepts(n) ||
               (Broke(drive, g, n, issued[n]) && (count == 24 || (recals == recals0 + 1 && !drive.recalibrates(recals0))))
      ensures Settled(false, before, total, firstSeek, firstRecal)
    {
      NotSettled(n, before, firstRecal);
    }

    lemma TallyFinished(rw: nat, cal: nat, before: seq<Read>, total: int, firstSeek: nat, firstRecal: nat)
      requires rw <= FDC_RW_RETRIES + 1 && cal <= FDC_CAL_RETRIES + 1 && Breaks(drive, g, issued, |before|) == rw + 5 * cal
      requires SeeksDone(drive, firstSeek, seeks) && RecalsDone(drive, firstRecal, recals) && Taken(drive, |before|, |issued|)
      requires |issued| == |before| + total + rw + 5 * cal && recals == firstRecal + cal && seeks == firstSeek + total + cal
      ensures Settled(true, before, total, firstSeek, firstRecal)
    {
      FifthsOf(rw, cal);
    }

    ghost predicate TalliedOn(status: Status, next: Loop, before: seq<Read>, total: int, firstSeek: nat, firstRecal: nat)
      requires Proper(g)
      reads this`issued, this`recals, this`seeks, this`blnr
    {
      match status
      case Repeat => Tallied(next, 0, before, total, firstSeek, firstRecal)
      case SeekNext => Tallied(next, 1, before, total, firstSeek, firstRecal)
      case _ => Settled(status.Finished?, before, total, firstSeek, firstRecal)
    }

    lemma RecalsJoin(a: nat, b: nat, c: nat)
      requires RecalsDone(drive, a, b) && RecalsDone(drive, b, c)
      ensures RecalsDone(drive, a, c)
    {
    }

    lemma FifthsOf(rw: nat, cal: nat)
      requires rw <= FDC_RW_RETRIES + 1
      ensures (rw + 5 * cal) / 5 == cal
    {
    }

    lemma NotSettled(n: nat, before: seq<Read>, firstRecal: nat)
      requires |before| <= n < |issued|
      ensures !drive.accepts(n) ==> !Taken(drive, |before|, |issued|)
      ensures firstRecal < recals && !drive.recalibrates(recals - 1) ==> !RecalsDone(drive, firstRecal, recals)
    {
    }

    /** A seek that does not go through ends it. */
    lemma SeekFailed(st: Loop, before: seq<Read>, total: int, firstSeek: nat, firstRecal: nat)
      requires firstSeek < seeks && !drive.seek(seeks - 1).SeekDone?
      requires Breaks(drive, g, issued, |before|) <= 24
      ensures Settled(false, before, total, firstSeek, firstRecal)
    {
      var last: nat := seeks - 1;
      assert firstSeek <= last < seeks && !drive.seek(last).SeekDone?;
    }

    /** On a smooth drive there is one seek before each READ, and none has failed. */
    ghost predicate Steady(st: Loop, before: seq<Read>, firstSeek: nat)
      reads this`issued, this`seeks
    {
      Smooth(drive, g) ==>
        st.rw == 0 && st.cal == 0 && seeks == firstSeek + 1 + |issued| - |before| && SeeksDone(drive, firstSeek, seeks)
    }

    /** How a smooth drive's seeks decide the outcome. */
    ghost predicate Decided(ok: bool, total: int, firstSeek: nat)
      reads this`interrupts
    {
      Smooth(drive, g) ==>
        && (ok <==> SeeksDone(drive, firstSeek, firstSeek + total))
        && (!interrupts <==> BadLaterSeek(drive, firstSeek, total))
    }

    /** The seek after READ number `k` is the first that does not go through. */
    lemma DecidedBy(k: nat, total: int, firstSeek: nat)
      requires 1 <= k < total && SeeksDone(drive, firstSeek, firstSeek + k) && !drive.seek(firstSeek + k).SeekDone?
      ensures !SeeksDone(drive, firstSeek, firstSeek + total)
      ensures BadLaterSeek(drive, firstSeek, total) <==> drive.seek(firstSeek + k).SeekBadStatus?
    {
      if drive.seek(firstSeek + k).SeekBadStatus? { assert BadAt(drive, firstSeek, total, k); }
    }

    /** ... and what is left of that when it returns. */
    ghost predicate Closed(before: seq<Read>, total: int, firstSeek: nat)
      reads this`issued, this`seeks, this`interrupts
    {
      && before <= issued && |issued| <= |before| + total + 24
      && (forall i :: |before| <= i < |issued| ==> StaysOnSide(issued[i]))
      && (interrupts <==> !(seeks >= firstSeek + 2 && drive.seek(seeks - 1).SeekBadStatus?))
    }

    /** A READ has been issued, the seek after it has not. */
    ghost predicate SeekDue(st: Loop, before: seq<Read>, total: int, firstSeek: nat)
      requires Proper(g)
      reads this`issued, this`seeks, this`blnr
    {
      && seeks > firstSeek && st.rw + 5 * st.cal <= 24
      && before <= issued && |before| < |issued| && Account(st) == |before| + total
      && (forall i :: |before| <= i < |issued| ==> StaysOnSide(issued[i]))
      && (Smooth(drive, g) ==>
            st.rw == 0 && st.cal == 0 && seeks == firstSeek + |issued| - |before| && SeeksDone(drive, firstSeek, seeks))
    }

    /** What one pass leaves before a seek. */
    ghost predicate Stands(status: Status, next: Loop, before: seq<Read>, total: int, firstSeek: nat)
      requires Proper(g)
      reads this`issued, this`blnr, this`seeks, this`arm
    {
      match status
      case Repeat => Logged(next, before, total, firstSeek) && Steady(next, before, firstSeek)
      case SeekNext => SeekDue(next, before, total, firstSeek)
      case _ =>
        && before <= issued && |issued| <= |before| + total + 24
        && (forall i :: |before| <= i < |issued| ==> StaysOnSide(issued[i]))
        && seeks > firstSeek && drive.seek(seeks - 1).SeekDone?
        && (Smooth(drive, g) ==> status.Finished? && SeeksDone(drive, firstSeek, firstSeek + total))
    }

    /** The log after one more READ. */
    lemma StandsOn(status: Status, st: Loop, next: Loop, log: seq<Read>, before: seq<Read>, total: int, firstSeek: nat, blnr0: nat)
      requires Proper(g) && before <= log <= issued && |issued| == |log| + 1 && StaysOnSide(issued[|issued| - 1])
      requires forall i :: |before| <= i < |log| ==> StaysOnSide(log[i])
      requires |log| - st.rw - 5 * st.cal + Sides(g, blnr0, st.blocks) == |before| + total
      requires st.rw <= FDC_RW_RETRIES + 1 && st.cal <= FDC_CAL_RETRIES + 1
      requires seeks > firstSeek && drive.seek(seeks - 1).SeekDone?
      requires Smooth(drive, g) ==>
                 st.rw == 0 && st.cal == 0 && seeks == firstSeek + 1 + |log| - |before| && SeeksDone(drive, firstSeek, seeks)
      requires status.Repeat? || status.SeekNext? ==>
                 Account(next) == |before| + total && next.rw + 5 * next.cal <= 24
      requires status.Repeat? ==> OnTrack()
      requires status.Finished? ==> |issued| == |before| + total + st.rw + 5 * st.cal
      requires Smooth(drive, g) ==> status.Finished? || (status.SeekNext? && next.rw == st.rw && next.cal == st.cal)
      ensures Stands(status, next, before, total, firstSeek)
    {
      SidesPositive(g, blnr0, st.blocks);
      SidesPositive(g, blnr, next.blocks);
      assert forall i :: |before| <= i < |log| ==> issued[i] == log[i];
    }

    /** A read that ends without another seek ends with the interrupts on. */
    lemma ClosedOn(status: Status, next: Loop, before: seq<Read>, total: int, firstSeek: nat, firstRecal: nat)
      requires Proper(g) && interrupts && (status.Failed? || status.Finished?)
      requires Arrived(status, next, before, total, firstSeek, firstRecal)
      ensures Over(status.Finished?, before, total, firstSeek, firstRecal)
    {
      assert Smooth(drive, g) ==> forall k: nat :: !BadAt(drive, firstSeek, total, k);
    }

    /** A read that ends with a seek that does not go through. */
    lemma ClosedBySeek(before: seq<Read>, total: int, firstSeek: nat)
      requires Proper(g) && before <= issued && |before| < |issued| <= |before| + total + 24
      requires forall i :: |before| <= i < |issued| ==> StaysOnSide(issued[i])
      requires seeks > firstSeek + 1 && !drive.seek(seeks - 1).SeekDone? && interrupts == drive.seek(seeks - 1).SeekTimeout?
      requires Smooth(drive, g) ==>
                 seeks == firstSeek + 1 + |issued| - |before| && |issued| < |before| + total && SeeksDone(drive, firstSeek, seeks - 1)
      ensures Closed(before, total, firstSeek) && Decided(false, total, firstSeek)
    {
      if Smooth(drive, g) { DecidedBy(|issued| - |before|, total, firstSeek); }
    }

    /** The accounts while the loop goes on. */
    ghost predicate InOrder(st: Loop, before: seq<Read>, total: int, firstSeek: nat, firstRecal: nat)
      requires Proper(g)
      reads this`issued, this`recals, this`seeks, this`blnr, this`arm
    {
      Logged(st, before, total, firstSeek) && Steady(st, before, firstSeek) && Tallied(st, 0, before, total, firstSeek, firstRecal)
    }

    /** ... and when the read is over. */
    ghost predicate Over(ok: bool, before: seq<Read>, total: int, firstSeek: nat, firstRecal: nat)
      reads this`issued, this`recals, this`seeks, this`interrupts
    {
      Closed(before, total, firstSeek) && Decided(ok, total, firstSeek) && Settled(ok, before, total, firstSeek, firstRecal)
    }

    /** The accounts at the end but for the interrupts. */
    ghost predicate Arrived(status: Status, next: Loop, before: seq<Read>, total: int, firstSeek: nat, firstRecal: nat)
      requires Proper(g)
      reads this`issued, this`recals, this`seeks, this`blnr, this`arm
    {
      Stands(status, next, before, total, firstSeek) && TalliedOn(status, next, before, total, firstSeek, firstRecal)
    }

    /** One pass, with the accounts. */
    method Attempt(buffer: array<Byte>, st: Loop, ghost from: nat, ghost count: nat, ghost arrived: nat,
                   ghost before: seq<Read>, ghost total: int, ghost firstSeek: nat, ghost firstRecal: nat)
        returns (status: Status, next: Loop, ghost got: nat)
      requires Proper(g) && Formatted(drive, g) && Running(buffer, from, count, arrived, st)
      requires Bytes(g, count) <= buffer.Length && from + count <= Capacity(g)
      requires InOrder(st, before, total, firstSeek, firstRecal)
      modifies this`issued, this`blnr, this`recals, this`arm, buffer
      ensures got <= count && Progress(buffer, from, got)
      ensures status.Repeat? || status.SeekNext? ==>
                && Running(buffer, from, count, got, next)
                && (next.blocks < st.blocks || (next.blocks == st.blocks && next.rw + 5 * next.cal > st.rw + 5 * st.cal))
      ensures status.Finished? ==> got == count
      ensures status.Repeat? ==> InOrder(next, before, total, firstSeek, firstRecal)
      ensures status.SeekNext? ==> SeekDue(next, before, total, firstSeek) && Tallied(next, 1, before, total, firstSeek, firstRecal)
      ensures status.Failed? || status.Finished? ==> Arrived(status, next, before, total, firstSeek, firstRecal)
    {
      ghost var b := blnr;
      status, next, got := Round(buffer, st, from, count, arrived);
      assert TalliedOn(status, next, before, total, firstSeek, firstRecal) by {
        TallyOn(status, st, next, old(issued), old(recals), Sides(g, b, st.blocks), before, total, firstSeek, firstRecal);
      }
      assert Stands(status, next, before, total, firstSeek) by {
        StandsOn(status, st, next, old(issued), before, total, firstSeek, b);
      }
    }

    /** One pass and the seek after it. */
    method Pass(buffer: array<Byte>, st: Loop, ghost from: nat, ghost count: nat, ghost arrived: nat,
                ghost before: seq<Read>, ghost total: int, ghost firstSeek: nat, ghost firstRecal: nat)
        returns (status: Status, next: Loop, ghost got: nat)
      requires Proper(g) && Formatted(drive, g) && Running(buffer, from, count, arrived, st)
      requires Bytes(g, count) <= buffer.Length && from + count <= Capacity(g)
      requires InOrder(st, before, total, firstSeek, firstRecal) && !interrupts
      modifies this, buffer
      ensures got <= count && Progress(buffer, from, got)
      ensures !status.SeekNext? && (status.Finished? ==> got == count)
      ensures status.Repeat? ==>
                && Running(buffer, from, count, got, next) && InOrder(next, before, total, firstSeek, firstRecal) && !interrupts
                && (next.blocks < st.blocks || (next.blocks == st.blocks && next.rw + 5 * next.cal > st.rw + 5 * st.cal))
      ensures !status.Repeat? ==> Over(status.Finished?, before, total, firstSeek, firstRecal)
    {
      status, next, got := Attempt(buffer, st, from, count, arrived, before, total, firstSeek, firstRecal);
      if status.Failed? || status.Finished? {
        interrupts := true;
        ClosedOn(status, next, before, total, firstSeek, firstRecal);
      } else if status.SeekNext? {
        status := SeekAgain(next, before, total, firstSeek, firstRecal);
      }
    }

    /** The seek between two READs. */
    method SeekAgain(st: Loop, ghost before: seq<Read>, ghost total: int, ghost firstSeek: nat, ghost firstRecal: nat)
        returns (status: Status)
      requires Proper(g) && !interrupts && SeekDue(st, before, total, firstSeek)
      requires Tallied(st, 1, before, total, firstSeek, firstRecal)
      modifies this`seeks, this`arm, this`interrupts
      ensures status.Repeat? || status.Failed?
      ensures status.Repeat? ==> InOrder(st, before, total, firstSeek, firstRecal) && !interrupts
      ensures status.Failed? ==> Over(false, before, total, firstSeek, firstRecal)
    {
      SidesPositive(g, blnr, st.blocks);
      var seek := Seek();
      if !seek.SeekDone? { SeekFailed(st, before, total, firstSeek, firstRecal); }
      if seek.SeekTimeout? {
        interrupts := true;
        status := Failed;
      } else if seek.SeekBadStatus? {
        status := Failed;   // the interrupts stay off
      } else {
        status := Repeat;
      }
      if status.Failed? { ClosedBySeek(before, total, firstSeek); }
    }

    /** `fdc_read_data`. */
    method ReadData(buffer: array<Byte>, count: nat) returns (ok: bool, ghost arrived: nat)
      requires Proper(g) && Formatted(drive, g)
      requires Bytes(g, count) <= buffer.Length && blnr + count <= Capacity(g)
      modifies this, buffer
      ensures arrived <= count && Progress(buffer, old(blnr), arrived)
      ensures ok ==> arrived == count
      ensures Closed(old(issued), Sides(g, old(blnr), count), old(seeks))
      ensures (forall i :: i > old(seeks) ==> !drive.seek(i).SeekBadStatus?) ==> interrupts
      ensures Decided(ok, Sides(g, old(blnr), count), old(seeks))
      ensures Settled(ok, old(issued), Sides(g, old(blnr), count), old(seeks), old(recals))
    {
      interrupts := false;
      ghost var from := blnr;
      arrived := 0;
      var seek := Seek();
      if !seek.SeekDone? {
        SidesPositive(g, blnr, count);
        interrupts := true;
        assert !drive.seek(old(seeks)).SeekDone?;
        SeekFailed(Loop(0, count, 0, 0, 0), old(issued), Sides(g, from, count), old(seeks), old(recals));
        return false, 0;
      }
      var readblk := g.sect - blnr % g.sect;
      if readblk > count {
        readblk := count;
      }
      var st := Loop(0, count, readblk, 0, 0);
      while true
        invariant Running(buffer, from, count, arrived, st) && !interrupts
        invariant InOrder(st, old(issued), Sides(g, from, count), old(seeks), old(recals))
        decreases st.blocks, 25 - st.rw - 5 * st.cal
      {
        var status;
        status, st, arrived := Pass(buffer, st, from, count, arrived, old(issued), Sides(g, from, count), old(seeks), old(recals));
        if !status.Repeat? {
          return status.Finished?, arrived;
        }
      }
    }
  }

  /** A drive whose second seek ends with a bad status and which otherwise works:
      reading two blocks that lie on two track sides fails, and the interrupts
      stay off. */
  method InterruptsLeftOff() returns (r: Reader, ok: bool)
    ensures Proper(r.g) && Formatted(r.drive, r.g) && Smooth(r.drive, r.g)
    ensures !ok && !r.interrupts
  {
    var g := Geometry(1, 1, 1);
    var disk: Disk := p => [0];
    var seek := (n: nat) => if n == 1 then SeekBadStatus else SeekDone;
    var d := Drive(disk, seek, n => true, n => 1, n => true);
    r := new Reader(d, g, 0);
    var buffer := new Byte[2];
    BytesIsProduct(g, 2);
    ghost var arrived;
    ok, arrived := r.ReadData(buffer, 2);
    r.DecidedBy(1, 2, 0);
  }
}
