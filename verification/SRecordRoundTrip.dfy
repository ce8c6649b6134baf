/** An uploaded memory image, downloaded again. */
module SRecordRoundTrip {
  import opened Arithmetic
  import opened Numerals
  import opened SRecord
  import opened SRecordTypes

  // ----- what the data records do to memory

  lemma {:induction false} PutConcat(mem: Memory, a: nat, s: seq<Byte>, t: seq<Byte>)
    ensures Put(mem, a, s + t) == Put(Put(mem, a, s), a + |s|, t)
    decreases |t|
  {
    if t == [] {
      assert s + t == s;
    } else {
      PutConcat(mem, a, s, t[..|t| - 1]);
      assert (s + t)[..|s + t| - 1] == s + t[..|t| - 1];
    }
  }

  /** Memory after storing `image` at `a`: the image there, the rest untouched. */
  ghost predicate Stored(before: Memory, a: nat, image: seq<Byte>, after: Memory) {
    && HoldsImage(after, a, image)
    && (forall x :: x < a || a + |image| <= x ==> (x in after <==> x in before))
    && (forall x :: (x < a || a + |image| <= x) && x in before ==> after[x] == before[x])
  }

  lemma {:induction false} PutStores(mem: Memory, a: nat, image: seq<Byte>)
    ensures Stored(mem, a, image, Put(mem, a, image))
    decreases |image|
  {
    if image != [] {
      var n := |image| - 1;
      PutStores(mem, a, image[..n]);
      var init := Put(mem, a, image[..n]);
      forall i | 0 <= i < |image| ensures HoldsByte(Put(mem, a, image), a + i, image[i]) {
        if i < n { assert HoldsByte(init, a + i, image[..n][i]); }
      }
    }
  }

  lemma {:induction false} ItemsInRange(a: nat, image: seq<Byte>, k: nat)
    requires a + |image| <= WORD && k < |Items(a, image)|
    ensures Items(a, image)[k].addr < WORD
    decreases |image|
  {
    if image != [] && k > 0 {
      var n := RecordSize(|image|);
      ItemsInRange(a + n, image[n..], k - 1);
    }
  }

  function Span(t: Tally, a: nat, z: nat, mem: Memory): Tally {
    Tally(if a < t.first then a else t.first, if z > t.last then z else t.last, mem)
  }

  lemma StoreOne(t: Tally, offset: int, i: Item)
    requires 0 <= i.addr + offset && i.addr + offset + |i.data| <= WORD && i.data != []
    ensures Store(t, offset, i) == Span(t, i.addr + offset, i.addr + offset + |i.data| - 1, Put(t.mem, i.addr + offset, i.data))
  {
  }

  lemma StoreCons(t: Tally, offset: int, item: Item, items: seq<Item>)
    ensures StoreAll(t, offset, [item] + items) == StoreAll(Store(t, offset, item), offset, items)
  {
    assert ([item] + items)[1..] == items;
  }

  /** One record and the rest of the image. */
  lemma ImageStep(mem: Memory, b: nat, image: seq<Byte>, n: nat)
    requires n <= |image|
    ensures Put(Put(mem, b, image[..n]), b + n, image[n..]) == Put(mem, b, image)
  {
    PutConcat(mem, b, image[..n], image[n..]);
    assert image[..n] + image[n..] == image;
  }

  /** Storing the records of an image, at an offset that does not wrap, is
      storing the image, and the tally spans exactly it. */
  lemma {:induction false} StoreItems(t: Tally, offset: int, a: nat, image: seq<Byte>)
    requires 0 <= a + offset && a + offset + |image| <= WORD && image != []
    ensures StoreAll(t, offset, Items(a, image)) == Span(t, a + offset, a + offset + |image| - 1, Put(t.mem, a + offset, image))
    decreases |image|
  {
    var n, b := RecordSize(|image|), a + offset;
    var t1 := Span(t, b, b + n - 1, Put(t.mem, b, image[..n]));
    StoreFirst(t, offset, a, image);
    if n < |image| {
      StoreItems(t1, offset, a + n, image[n..]);
      SpanRest(t, b, image, n);
    } else {
      assert image[..n] == image && Items(a + n, image[n..]) == [];
    }
  }

  /** The first record of an image. */
  lemma StoreFirst(t: Tally, offset: int, a: nat, image: seq<Byte>)
    requires 0 <= a + offset && a + offset + |image| <= WORD && image != []
    ensures var n, b := RecordSize(|image|), a + offset;
            StoreAll(t, offset, Items(a, image)) ==
            StoreAll(Span(t, b, b + n - 1, Put(t.mem, b, image[..n])), offset, Items(a + n, image[n..]))
  {
    var n := RecordSize(|image|);
    var item := Item(a, image[..n]);
    StoreOne(t, offset, item);
    StoreCons(t, offset, item, Items(a + n, image[n..]));
  }

  /** The range and the memory after the first record and then the rest. */
  lemma SpanRest(t: Tally, b: nat, image: seq<Byte>, n: nat)
    requires 0 < n < |image|
    ensures var mem, z := Put(t.mem, b, image[..n]), b + |image| - 1;
            Span(Span(t, b, b + n - 1, mem), b + n, z, Put(mem, b + n, image[n..])) == Span(t, b, z, Put(t.mem, b, image))
  {
    var mem := Put(t.mem, b, image[..n]);
    ImageStep(t.mem, b, image, n);
    SpanOn(t, b, b + n - 1, mem, b + |image| - 1, Put(t.mem, b, image));
  }

  /** Two spans that follow each other are one. */
  lemma SpanOn(t: Tally, a: nat, m: nat, mem: Memory, z: nat, mem': Memory)
    requires a <= m < z
    ensures Span(Span(t, a, m, mem), m + 1, z, mem') == Span(t, a, z, mem')
  {
  }

  // ----- the whole text

  function Done(entry: nat, t: Tally): Outcome {
    Loaded(entry, t.first, t.last, (t.last - t.first + 1) % WORD, t.mem)
  }

  lemma TextParts(text: string, s: string, t: string, u: string)
    requires text == s + t + u
    ensures Has(text, 0, s) && Has(text, |s|, t) && Has(text, |s| + |t|, u)
  {
    assert text[0..0 + |s|] == s;
  }

  lemma SealedReadable(kind: char, p: seq<Byte>)
    requires ' ' < kind && |p| < 256
    ensures Readable(['S', kind] + HexAll(p) + "\n", ['S', kind] + HexAll(p))
  {
    HexClean(p);
    CleanConcat(['S', kind], HexAll(p));
  }

  lemma CleanConcat(s: string, t: string)
    requires Clean(s) && Clean(t)
    ensures Clean(s + t)
  {
  }

  lemma HeaderReads() returns (head: string)
    ensures Readable(SREC3_START, head) && Decode(head) == Start
  {
    head := "S0" + HexAll(Seal(3, [0, 0], 252));
    assert Readable(SREC3_START, head) by {
      StartText();
      SealedReadable('0', Seal(3, [0, 0], 252));
    }
    DecodeStart(head);
  }

  lemma TrailerReads() returns (tail: string)
    ensures Readable(SREC3_END, tail) && Decode(tail) == End(0)
  {
    tail := "S7" + HexAll(Seal(5, [0, 0, 0, 0], 250));
    assert Readable(SREC3_END, tail) by {
      EndText();
      SealedReadable('7', Seal(5, [0, 0, 0, 0], 250));
    }
    DecodeEnd(tail);
  }

  /** The lines without their line ends. */
  function Stripped(items: seq<Item>): (ls: seq<string>)
    requires forall k :: 0 <= k < |items| ==> |items[k].data| <= SREC_BYTES_PER_RECORD
    ensures |ls| == |items| && forall k :: 0 <= k < |items| ==> ls[k] == DataLine(items[k].addr, items[k].data)
  {
    seq(|items|, k requires 0 <= k < |items| => DataLine(items[k].addr, items[k].data))
  }

  lemma RecordsRead(lines: seq<string>, a: nat, image: seq<Byte>) returns (ls: seq<string>)
    requires AreRecords(lines, Items(a, image)) && a + |image| <= WORD
    ensures AllReadable(lines, ls) && |ls| == |Items(a, image)|
    ensures forall k :: 0 <= k < |ls| ==> Decode(ls[k]) == Data(Items(a, image)[k].addr, Items(a, image)[k].data)
  {
    var items := Items(a, image);
    assert forall k :: 0 <= k < |lines| ==> IsRecord(lines[k], items[k]);
    ls := Stripped(items);
    forall k | 0 <= k < |ls| ensures Readable(lines[k], ls[k]) && Decode(ls[k]) == Data(items[k].addr, items[k].data) {
      ItemsInRange(a, image, k);
      var l := RecordReads(items[k]);
    }
  }

  ghost predicate AllReadable(lines: seq<string>, ls: seq<string>) {
    |ls| == |lines| && forall k :: 0 <= k < |ls| ==> Readable(lines[k], ls[k])
  }

  lemma ReadsToEnd(text: string, p: nat, lines: seq<string>, ls: seq<string>, q: nat, tail: string)
    requires Has(text, p, Concat(lines)) && q == p + |Concat(lines)| && AllReadable(lines, ls)
    requires Has(text, q, tail + "\n") && Readable(tail + "\n", tail)
    ensures Lines(text, p) == Prepend(ls, Line(tail, Lines(text, q + |tail| + 1)))
  {
    assert Lines(text, q) == Line(tail, Lines(text, q + |tail| + 1)) by { ReadsLine(text, q, tail); }
    ReadsLines(text, p, lines, ls);
  }

  /** A header, records and a trailer are read line by line. */
  lemma ThreeParts(text: string, start: string, lines: seq<string>, end: string, head: string, ls: seq<string>, tail: string)
    requires text == start + Concat(lines) + end && Readable(start, head) && Readable(end, tail) && AllReadable(lines, ls)
    ensures Lines(text, 0) == Line(head, Prepend(ls, Line(tail, Lines(text, |text|))))
  {
    var p, q := |start|, |start| + |Concat(lines)|;
    assert Has(text, 0, start) && Has(text, p, Concat(lines)) && Has(text, q, end) by {
      TextParts(text, start, Concat(lines), end);
    }
    assert Lines(text, p) == Prepend(ls, Line(tail, Lines(text, |text|))) by { ReadsToEnd(text, p, lines, ls, q, tail); }
    ReadsLine(text, 0, head);
  }

  /** The text carries `image` for address `a` and ends with the line `tail`. */
  ghost predicate Carries(text: string, a: nat, image: seq<Byte>, tail: string) {
    exists lines :: text == SREC3_START + Concat(lines) + (tail + "\n") && AreRecords(lines, Items(a, image))
  }

  /** A final line that names `entry`. */
  ghost predicate NamesEntry(tail: string, entry: nat) {
    Clean(tail) && |tail| < SREC_MAXRECLEN && Decode(tail) == End(entry)
  }

  /** A final record of any type is such a line. */
  lemma FinalRecord(kind: char, width: nat, entry: nat)
    requires FinalKind(kind, width) && entry < Reach(width)
    ensures NamesEntry(RecordText(kind, width, entry, []), entry)
  {
    RecordDecodes(kind, width, entry, []);
    HexClean(Fields(width, entry, []));
    CleanConcat(['S', kind], HexAll(Fields(width, entry, [])));
  }

  /** An upload ends with entry 0. */
  lemma UploadCarries(text: string, a: nat, image: seq<Byte>) returns (tail: string)
    requires IsUpload(text, a, image)
    ensures Carries(text, a, image, tail) && NamesEntry(tail, 0)
  {
    var lines :| text == SREC3_START + Concat(lines) + SREC3_END && AreRecords(lines, Items(a, image));
    tail := TrailerReads();
  }

  /** What the console delivers of such a text. */
  lemma CarriedLines(text: string, a: nat, image: seq<Byte>, tail: string) returns (head: string, ls: seq<string>)
    requires Carries(text, a, image, tail) && Clean(tail) && |tail| < SREC_MAXRECLEN && a + |image| <= WORD
    ensures Lines(text, 0) == Line(head, Prepend(ls, Line(tail, Lines(text, |text|))))
    ensures Decode(head) == Start
    ensures |ls| == |Items(a, image)|
    ensures forall k :: 0 <= k < |ls| ==> Decode(ls[k]) == Data(Items(a, image)[k].addr, Items(a, image)[k].data)
  {
    var lines :| text == SREC3_START + Concat(lines) + (tail + "\n") && AreRecords(lines, Items(a, image));
    head := HeaderReads();
    ls := RecordsRead(lines, a, image);
    ThreeParts(text, SREC3_START, lines, tail + "\n", head, ls, tail);
  }

  lemma LoadCarried(chip: Chip, text: string, a: nat, image: seq<Byte>, tail: string, entry: nat, offset: int, t: Tally)
    requires Carries(text, a, image, tail) && NamesEntry(tail, entry) && a + |image| <= WORD
    ensures var r, items := Load(chip, Lines(text, 0), offset, t), Items(a, image);
            if Writable(chip, offset, items) then r == Done(entry, StoreAll(t, offset, items)) else r.Failed?
  {
    var head, ls := CarriedLines(text, a, image, tail);
    LoadRecords(chip, ls, Line(tail, Lines(text, |text|)), Items(a, image), offset, t);
  }

  /** What the download of an uploaded image reports and leaves in memory. */
  ghost predicate ReadBack(r: Outcome, entry: nat, b: nat, image: seq<Byte>, before: Memory) {
    r.Loaded? && r.entry == entry && r.first == b && r.last == b + |image| - 1 && r.size == |image| && Stored(before, b, image, r.mem)
  }

  lemma ItemsReadBack(a: nat, image: seq<Byte>, entry: nat, offset: int, before: Memory)
    requires a + |image| <= WORD && |image| < WORD && 0 <= a + offset && a + offset + |image| <= WORD
    ensures ReadBack(Done(entry, StoreAll(Fresh(before), offset, Items(a, image))), entry, a + offset, image, before) <==> image != []
    ensures image == [] ==> Done(entry, StoreAll(Fresh(before), offset, Items(a, image))) == Loaded(entry, WORD - 1, 0, 2, before)
  {
    if image != [] {
      StoreItems(Fresh(before), offset, a, image);
      PutStores(before, a + offset, image);
    }
  }

  /** Loading a text that carries an image and names an entry restores the image, as
      below, and returns the entry. */
  lemma CarriedRoundTripIff(chip: Chip, text: string, a: nat, image: seq<Byte>, tail: string, entry: nat, offset: int, before: Memory)
    requires Carries(text, a, image, tail) && NamesEntry(tail, entry)
    requires a + |image| <= WORD && |image| < WORD && 0 <= a + offset && a + offset + |image| <= WORD
    ensures var r := Load(chip, Lines(text, 0), offset, Fresh(before));
            && (ReadBack(r, entry, a + offset, image, before) <==> image != [] && Writable(chip, offset, Items(a, image)))
            && (image == [] ==> r == Loaded(entry, WORD - 1, 0, 2, before))
  {
    LoadCarried(chip, text, a, image, tail, entry, offset, Fresh(before));
    ItemsReadBack(a, image, entry, offset, before);
  }

  /** One wrong byte in a record ends the download with a failure; memory holds
      exactly the records before it.  So does a hang-up. */
  lemma DamagedRecordStops(chip: Chip, ls: seq<string>, items: seq<Item>, kind: char, p: seq<Byte>, i: nat, b: Byte,
                           more: Input, offset: int, t: Tally)
    requires |ls| == |items| && forall k :: 0 <= k < |ls| ==> Decode(ls[k]) == Data(items[k].addr, items[k].data)
    requires Writable(chip, offset, items)
    requires Typed(kind) && Sealed(p, AddressWidth(kind)) && 0 < i < |p| && b != p[i]
    ensures Load(chip, Prepend(ls, Line(['S', kind] + HexAll(p[i := b]), more)), offset, t) == Failed(StoreAll(t, offset, items).mem)
    ensures Load(chip, Prepend(ls, HungUp), offset, t) == Failed(StoreAll(t, offset, items).mem)
  {
    OneByteSeen(kind, p, i, b);
    LoadRecords(chip, ls, Line(['S', kind] + HexAll(p[i := b]), more), items, offset, t);
    LoadRecords(chip, ls, HungUp, items, offset, t);
  }

  /** Loading an upload at a displacement that does not wrap restores the image
      with first address, last address and size exact, whatever was in memory,
      if and only if every write goes through and the image is not empty: with
      nothing uploaded the download reports the range from 2^32 - 1 down to 0, of
      size 2. */
  lemma SaveLoadRoundTripIff(chip: Chip, text: string, a: nat, image: seq<Byte>, offset: int, before: Memory)
    requires IsUpload(text, a, image)
    requires a + |image| <= WORD && |image| < WORD && 0 <= a + offset && a + offset + |image| <= WORD
    ensures ReadBack(Load(chip, Lines(text, 0), offset, Fresh(before)), 0, a + offset, image, before)
            <==> image != [] && Writable(chip, offset, Items(a, image))
    ensures image == [] ==> Load(chip, Lines(text, 0), offset, Fresh(before)) == Loaded(0, WORD - 1, 0, 2, before)
  {
    var tail := UploadCarries(text, a, image);
    CarriedRoundTripIff(chip, text, a, image, tail, 0, offset, before);
  }

  /** A text that carries an image and ends with a final record for an entry, of
      whatever type, is loaded with that entry. */
  method LoadProgram(chip: Chip, text: string, a: nat, ghost image: seq<Byte>, kind: char, width: nat, entry: nat,
                     offset: int, before: Memory) returns (r: Outcome)
    requires FinalKind(kind, width) && entry < Reach(width) && Carries(text, a, image, RecordText(kind, width, entry, []))
    requires a + |image| <= WORD && |image| < WORD && 0 <= a + offset && a + offset + |image| <= WORD
    ensures ReadBack(r, entry, a + offset, image, before) <==> image != [] && Writable(chip, offset, Items(a, image))
    ensures r.Loaded? ==> r.entry == entry
  {
    FinalRecord(kind, width, entry);
    CarriedRoundTripIff(chip, text, a, image, RecordText(kind, width, entry, []), entry, offset, before);
    LoadCarried(chip, text, a, image, RecordText(kind, width, entry, []), entry, offset, Fresh(before));
    r := LoadSerial(chip, text, offset, before);
  }

  /** Uploads a region and downloads the text at a displacement: the image comes
      back, after an upload that was not stopped, if and only if it is not empty
      and every write goes through. */
  method SaveThenLoad(source: Memory, start: nat, total: nat, ctrlc: nat -> bool, ghost image: seq<Byte>,
                      chip: Chip, offset: int, before: Memory)
      returns (rc: int, r: Outcome)
    requires HoldsImage(source, start, image) && |image| == total < WORD && start + total <= WORD
    requires 0 <= start + offset && start + offset + total <= WORD
    ensures rc == 0 ==> (ReadBack(r, 0, start + offset, image, before) <==> total > 0 && Writable(chip, offset, Items(start, image)))
  {
    var text;
    rc, text := SaveSerial(source, start, total, ctrlc, image);
    r := LoadSerial(chip, text, offset, before);
    if rc == 0 { SaveLoadRoundTripIff(chip, text, start, image, offset, before); }
  }
}
