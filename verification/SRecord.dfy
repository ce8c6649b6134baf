/** Motorola S-records: the upload that dumps memory as text and the download
    that reads such text back.
 */
module SRecord {
  import opened Arithmetic
  import opened Numerals

  const SREC_BYTES_PER_RECORD := 16
  const SREC_MAXRECLEN := 516

  const SREC3_START := "S0030000FC\n"
  const SREC3_END := "S70500000000FA\n"

  // ----- hexadecimal

  function Hex1(v: nat): char
    requires v < 16
  {
    if v < 10 then '0' + v as char else 'A' + (v - 10) as char
  }

  function Hex2(b: Byte): string {
    [Hex1(b / 16), Hex1(b % 16)]
  }

  function HexAll(s: seq<Byte>): (t: string)
    ensures |t| == 2 * |s|
  {
    if s == [] then [] else HexAll(s[..|s| - 1]) + Hex2(s[|s| - 1])
  }

  /** `hex2_bin` at position `i`; past the end there is only the terminator. */
  function Value2(s: string, i: nat): (v: int)
    ensures -1 <= v < 256
  {
    if i + 1 < |s| && DigitValue(s[i]) >= 0 && DigitValue(s[i + 1]) >= 0 then DigitValue(s[i]) * 16 + DigitValue(s[i + 1]) else -1
  }

  lemma HexOfByte(b: Byte)
    ensures DigitValue(Hex1(b / 16)) == b / 16 && DigitValue(Hex1(b % 16)) == b % 16
  {
  }

  /** Each byte of a hexadecimal run can be read back. */
  lemma {:induction false} ValueOfHex(pre: string, s: seq<Byte>, post: string, k: nat)
    requires k < |s|
    ensures Value2(pre + HexAll(s) + post, |pre| + 2 * k) == s[k]
    decreases |s|
  {
    var last := |s| - 1;
    if k < last {
      ValueOfHex(pre, s[..last], Hex2(s[last]) + post, k);
      assert pre + HexAll(s) + post == pre + HexAll(s[..last]) + (Hex2(s[last]) + post);
    } else {
      HexOfByte(s[last]);
      var t := pre + HexAll(s) + post;
      var i := |pre| + 2 * k;
      assert t[i] == Hex1(s[last] / 16) && t[i + 1] == Hex1(s[last] % 16);
    }
  }

  // ----- one record

  /** What the checksum of a data record covers. */
  function Covered(a: nat, data: seq<Byte>): seq<Byte>
    requires |data| <= SREC_BYTES_PER_RECORD
  {
    [4 + |data| + 1] + BigEndian(a) + data
  }

  function Payload(a: nat, data: seq<Byte>): seq<Byte>
    requires |data| <= SREC_BYTES_PER_RECORD
  {
    Covered(a, data) + [255 - Sum(Covered(a, data)) % 256]
  }

  /** A data record without its line end. */
  function DataLine(a: nat, data: seq<Byte>): string
    requires |data| <= SREC_BYTES_PER_RECORD
  {
    "S3" + HexAll(Payload(a, data))
  }

  /** The bytes of a record sum to 0xFF modulo 256, and with its line end and
      terminator it fits the 48-byte record buffer. */
  lemma RecordWellFormed(a: nat, data: seq<Byte>)
    requires |data| <= SREC_BYTES_PER_RECORD
    ensures Sum(Payload(a, data)) % 256 == 255
    ensures |DataLine(a, data) + "\n"| + 1 <= 2 * SREC_BYTES_PER_RECORD + 16
  {
    var c := Covered(a, data);
    assert Payload(a, data)[..|c|] == c;
  }

  // ----- decoding

  datatype Record =
    | Bad
    | Empty
    | Start
    | Count
    | Data(addr: nat, data: seq<Byte>)
    | End(addr: nat)

  /** The `n` byte pairs from position `i` on; `None` when one is malformed. */
  datatype Bytes = None | Some(bytes: seq<Byte>)

  function Pairs(s: string, i: nat, n: nat): (r: Bytes)
    ensures r.Some? ==> |r.bytes| == n
  {
    if n == 0 then Some([])
    else
      var init := Pairs(s, i, n - 1);
      if init.None? || Value2(s, i + 2 * (n - 1)) < 0 then None
      else Some(init.bytes + [Value2(s, i + 2 * (n - 1))])
  }

  /** The position after the first 'S', or the end. */
  function AfterS(s: string, i: nat): nat
    requires i <= |s|
    decreases |s| - i
  {
    if i == |s| then i else if s[i] == 'S' then i + 1 else AfterS(s, i + 1)
  }

  /** Bytes of address that a record type carries; 0 for an unknown type. */
  function AddressWidth(kind: char): nat {
    if kind == '3' || kind == '7' then 4
    else if kind == '2' || kind == '8' then 3
    else if kind == '0' || kind == '1' || kind == '5' || kind == '9' then 2
    else 0
  }

  /** Big-endian value. */
  function Number(s: seq<Byte>): nat {
    if s == [] then 0 else Number(s[..|s| - 1]) * 256 + s[|s| - 1]
  }

  /** What a record with a valid checksum means; `bytes` are its count, address
      and data. */
  function Meaning(kind: char, bytes: seq<Byte>): Record
    requires |bytes| >= 1 + AddressWidth(kind)
  {
    var width := AddressWidth(kind);
    var addr := Number(bytes[1..1 + width]);
    if '1' <= kind <= '3' then Data(addr, bytes[1 + width..])
    else if '7' <= kind <= '9' then End(addr)
    else if kind == '5' then Count
    else Start
  }

  /** How many bytes precede the checksum: count, address and data. */
  function FieldBytes(kind: char, count: int): nat {
    var width := AddressWidth(kind);
    if kind == '5' || count < width + 1 then 1 + width else count
  }

  function Judge(kind: char, all: Bytes, check: int): Record
    requires all.Some? ==> |all.bytes| >= 1 + AddressWidth(kind)
  {
    if all.None? || check != 255 - Sum(all.bytes) % 256 then Bad else Meaning(kind, all.bytes)
  }

  /** A record of type `kind` whose fields begin at position `i`. */
  function DecodeFields(s: string, i: nat, kind: char): Record {
    if Value2(s, i) < 0 || AddressWidth(kind) == 0 then Bad
    else
      var n := FieldBytes(kind, Value2(s, i));
      Judge(kind, Pairs(s, i, n), Value2(s, i + 2 * n))
  }

  /** `srec_decode`. */
  function Decode(s: string): Record {
    var i := AfterS(s, 0);
    if i >= |s| then Empty else DecodeFields(s, i + 1, s[i])
  }

  lemma {:induction false} PairsOfHex(pre: string, s: seq<Byte>, post: string, n: nat)
    requires n <= |s|
    ensures Pairs(pre + HexAll(s) + post, |pre|, n) == Some(s[..n])
    decreases n
  {
    if n > 0 {
      PairsOfHex(pre, s, post, n - 1);
      ValueOfHex(pre, s, post, n - 1);
    }
  }

  lemma NumberOfFour(b: seq<Byte>)
    requires |b| == 4
    ensures Number(b) == ((b[0] as int * 256 + b[1]) * 256 + b[2]) * 256 + b[3]
  {
    assert b[..3][..2] == b[..2] && b[..2][..1] == b[..1] && b[..1][..0] == [];
    assert Number(b[..1]) == b[0];
    assert Number(b[..2]) == b[0] as int * 256 + b[1];
  }

  lemma Octet(a: nat, d: nat)
    requires 0 < d
    ensures a / (256 * d) * 256 + a / d % 256 == a / d
  {
    DivDiv(a, d, 256);
  }

  lemma NumberOfAddress(a: nat)
    requires a < WORD
    ensures Number(BigEndian(a)) == a
  {
    NumberOfFour(BigEndian(a));
    Octet(a, 0x1_0000);
    Octet(a, 0x100);
    Octet(a, 1);
  }

  /** A record whose first byte counts the others and whose last is the checksum. */
  predicate Sealed(p: seq<Byte>, width: nat) {
    && |p| >= width + 2
    && p[0] == |p| - 1
    && p[|p| - 1] == 255 - Sum(p[..|p| - 1]) % 256
  }

  lemma FieldsAre(s: string, i: nat, kind: char, first: int, n: nat, all: Bytes, check: int)
    requires AddressWidth(kind) > 0 && 0 <= first == Value2(s, i) && n == FieldBytes(kind, first)
    requires all == Pairs(s, i, n) && check == Value2(s, i + 2 * n)
    ensures DecodeFields(s, i, kind) == Judge(kind, all, check)
  {
  }

  lemma JudgeSealed(kind: char, p: seq<Byte>)
    requires Sealed(p, AddressWidth(kind))
    ensures Judge(kind, Some(p[..|p| - 1]), p[|p| - 1]) == Meaning(kind, p[..|p| - 1])
  {
  }

  lemma FieldsSealed(s: string, kind: char, p: seq<Byte>)
    requires AddressWidth(kind) > 0 && kind != '5' && Sealed(p, AddressWidth(kind))
    requires Value2(s, 2) == p[0] && Pairs(s, 2, |p| - 1) == Some(p[..|p| - 1]) && Value2(s, 2 + 2 * (|p| - 1)) == p[|p| - 1]
    ensures DecodeFields(s, 2, kind) == Meaning(kind, p[..|p| - 1])
  {
    var n, fields := |p| - 1, p[..|p| - 1];
    assert FieldBytes(kind, p[0]) == n;
    FieldsAre(s, 2, kind, p[0], n, Some(fields), p[n]);
    JudgeSealed(kind, p);
  }

  lemma SealedText(s: string, kind: char, p: seq<Byte>)
    requires s == ['S', kind] + HexAll(p) && 0 < |p|
    ensures AfterS(s, 0) == 1 && 1 < |s| && s[1] == kind
    ensures Value2(s, 2) == p[0] && Pairs(s, 2, |p| - 1) == Some(p[..|p| - 1]) && Value2(s, 2 + 2 * (|p| - 1)) == p[|p| - 1]
  {
    var pre := ['S', kind];
    assert s == pre + HexAll(p) + [];
    assert Value2(s, 2) == p[0] by { ValueOfHex(pre, p, [], 0); }
    assert Pairs(s, 2, |p| - 1) == Some(p[..|p| - 1]) by { PairsOfHex(pre, p, [], |p| - 1); }
    assert Value2(s, 2 + 2 * (|p| - 1)) == p[|p| - 1] by { ValueOfHex(pre, p, [], |p| - 1); }
  }

  /** Such a record decodes to what its fields mean. */
  lemma DecodeSealed(s: string, kind: char, p: seq<Byte>)
    requires AddressWidth(kind) > 0 && kind != '5' && Sealed(p, AddressWidth(kind))
    requires s == ['S', kind] + HexAll(p)
    ensures Decode(s) == Meaning(kind, p[..|p| - 1])
  {
    SealedText(s, kind, p);
    FieldsSealed(s, kind, p);
  }

  /** A data record decodes to what was put into it. */
  lemma DecodeDataLine(a: nat, data: seq<Byte>)
    requires a < WORD && |data| <= SREC_BYTES_PER_RECORD
    ensures Decode(DataLine(a, data)) == Data(a, data)
  {
    var p, c := Payload(a, data), Covered(a, data);
    assert p[..|c|] == c;
    DecodeSealed(DataLine(a, data), '3', p);
    assert c[1..5] == BigEndian(a) && c[5..] == data;
    NumberOfAddress(a);
  }

  lemma HexOfFour(b: seq<Byte>)
    requires |b| == 4
    ensures HexAll(b) == Hex2(b[0]) + Hex2(b[1]) + Hex2(b[2]) + Hex2(b[3])
    ensures Sum(b) == b[0] as int + b[1] + b[2] + b[3]
    ensures Number(b) == ((b[0] as int * 256 + b[1]) * 256 + b[2]) * 256 + b[3]
  {
    NumberOfFour(b);
    assert b[..3][..2] == b[..2] && b[..2][..1] == b[..1] && b[..1][..0] == [];
    assert HexAll(b[..1]) == [] + Hex2(b[0]) == Hex2(b[0]);
    assert HexAll(b[..2]) == HexAll(b[..1]) + Hex2(b[1]);
    assert Sum(b[..1]) == b[0] && Sum(b[..2]) == b[0] as int + b[1];
  }

  /** The fields of the header and trailer records. */
  function Seal(first: Byte, address: seq<Byte>, check: Byte): (p: seq<Byte>)
    ensures |p| == |address| + 2
  {
    [first] + address + [] + [check]
  }

  lemma SealSums(first: Byte, address: seq<Byte>, check: Byte)
    requires first == |address| + 1 && check == 255 - (first + Sum(address)) % 256
    ensures Sealed(Seal(first, address, check), |address|) && Seal(first, address, check)[1..1 + |address|] == address
  {
    var p := Seal(first, address, check);
    assert p[..|p| - 1] == [first] + address && p[1..1 + |address|] == address;
    assert Sum([first] + address) == first + Sum(address) by {
      SumConcat([first], address);
      HexOfOne(first);
    }
  }

  lemma StartText()
    ensures "S0" + HexAll(Seal(3, [0, 0], 252)) + "\n" == SREC3_START
  {
    HexOfFields(3, [0, 0], [], 252);
    HexConcat([0], [0]);
    HexOfOne(0);
    assert [0] + [0] == [0, 0];
    assert Hex2(3) == "03" && Hex2(0) == "00" && Hex2(252) == "FC";
  }

  lemma EndText()
    ensures "S7" + HexAll(Seal(5, [0, 0, 0, 0], 250)) + "\n" == SREC3_END
  {
    var z: seq<Byte> := [0, 0, 0, 0];
    assert Hex2(5) == "05" && Hex2(0) == "00" && Hex2(250) == "FA";
    assert HexAll(z) == "00000000" by { HexOfFour(z); }
    assert HexAll(Seal(5, z, 250)) == "05" + "00000000" + "" + "FA" by {
      HexOfFields(5, z, [], 250);
      assert HexAll([]) == "";
    }
  }

  lemma DecodeStart(s: string)
    requires s == "S0" + HexAll(Seal(3, [0, 0], 252))
    ensures Decode(s) == Start
  {
    var z: seq<Byte> := [0, 0];
    SumConcat([0], [0]);
    assert [0] + [0] == z;
    HexOfOne(0);
    SealSums(3, z, 252);
    DecodeSealed(s, '0', Seal(3, z, 252));
  }

  lemma DecodeEnd(s: string)
    requires s == "S7" + HexAll(Seal(5, [0, 0, 0, 0], 250))
    ensures Decode(s) == End(0)
  {
    var z: seq<Byte> := [0, 0, 0, 0];
    HexOfFour(z);
    SealSums(5, z, 250);
    var p := Seal(5, z, 250);
    DecodeSealed(s, '7', p);
    assert p[..5][1..5] == z;
  }

  // ----- saving

  type Memory = map<nat, Byte>

  /** Memory holds `image` from address `a` on. */
  ghost predicate HoldsImage(mem: Memory, a: nat, image: seq<Byte>) {
    forall i :: 0 <= i < |image| ==> HoldsByte(mem, a + i, image[i])
  }

  predicate HoldsByte(mem: Memory, a: nat, b: Byte) {
    a in mem && mem[a] == b
  }

  /** The content of a data record. */
  datatype Item = Item(addr: nat, data: seq<Byte>)

  function RecordSize(count: nat): nat {
    if count < SREC_BYTES_PER_RECORD then count else SREC_BYTES_PER_RECORD
  }

  /** An image cut into records of sixteen bytes. */
  function Items(a: nat, image: seq<Byte>): seq<Item>
    decreases |image|
  {
    if image == [] then []
    else
      var n := RecordSize(|image|);
      [Item(a, image[..n])] + Items(a + n, image[n..])
  }

  /** `line` is the text of a data record. */
  predicate IsRecord(line: string, i: Item) {
    |i.data| <= SREC_BYTES_PER_RECORD && line == DataLine(i.addr, i.data) + "\n"
  }

  ghost predicate AreRecords(lines: seq<string>, items: seq<Item>) {
    |lines| == |items| && forall k :: 0 <= k < |lines| ==> IsRecord(lines[k], items[k])
  }

  function Concat(lines: seq<string>): string {
    if lines == [] then [] else lines[0] + Concat(lines[1..])
  }

  lemma {:induction false} HexConcat(s: seq<Byte>, t: seq<Byte>)
    ensures HexAll(s + t) == HexAll(s) + HexAll(t)
    decreases |t|
  {
    if t == [] {
      assert s + t == s && HexAll(s) + [] == HexAll(s);
    } else {
      var init, h := t[..|t| - 1], Hex2(t[|t| - 1]);
      HexConcat(s, init);
      assert (s + t)[..|s + t| - 1] == s + init;
      assert HexAll(s + t) == HexAll(s + init) + h;
      assert HexAll(s) + HexAll(init) + h == HexAll(s) + (HexAll(init) + h);
    }
  }

  lemma HexOfOne(b: Byte)
    ensures HexAll([b]) == Hex2(b) && Sum([b]) == b
  {
    assert [b][..0] == [];
    assert [] + Hex2(b) == Hex2(b);
  }

  lemma SumOfAddress(a: nat)
    ensures Sum(BigEndian(a)) == (a % 256) + (a / 0x100 % 256) + (a / 0x1_0000 % 256) + (a / 0x100_0000 % 256)
  {
    var b := BigEndian(a);
    assert b[..3][..2] == b[..2] && b[..2][..1] == b[..1] && b[..1][..0] == [];
    assert Sum(b[..1]) == b[0];
    assert Sum(b[..2]) == b[0] as int + b[1];
    assert Sum(b[..3]) == b[0] as int + b[1] + b[2];
  }

  lemma SumOfCovered(a: nat, data: seq<Byte>)
    requires |data| <= SREC_BYTES_PER_RECORD
    ensures Sum(Covered(a, data)) == 4 + |data| + 1 + Sum(BigEndian(a)) + Sum(data)
  {
    var l: Byte := 4 + |data| + 1;
    HexOfOne(l);
    SumConcat([l] + BigEndian(a), data);
    SumConcat([l], BigEndian(a));
  }

  lemma HexOfFields(l: Byte, b: seq<Byte>, d: seq<Byte>, c: Byte)
    ensures HexAll([l] + b + d + [c]) == Hex2(l) + HexAll(b) + HexAll(d) + Hex2(c)
  {
    HexOfOne(l);
    HexOfOne(c);
    HexConcat([l] + b + d, [c]);
    HexConcat([l] + b, d);
    HexConcat([l], b);
  }

  /** The text of a record, assembled as the upload does it. */
  lemma AssembledRecord(a: nat, data: seq<Byte>, l: Byte, check: Byte, b: seq<Byte>)
    requires |data| <= SREC_BYTES_PER_RECORD && l == 4 + |data| + 1 && b == BigEndian(a)
    requires check == 255 - Sum(Covered(a, data)) % 256
    ensures DataLine(a, data) == "S3" + (Hex2(l) + HexAll(b) + HexAll(data) + Hex2(check))
  {
    HexOfFields(l, b, data, check);
  }

  /** The running checksum of the upload is the sum over the record. */
  lemma RunningChecksum(a: nat, data: seq<Byte>, total: nat)
    requires |data| <= SREC_BYTES_PER_RECORD
    requires total == Sum(data) + (4 + |data| + 1) + a % 256 + a / 0x100 % 256 + a / 0x1_0000 % 256 + a / 0x100_0000 % 256
    ensures total == Sum(Covered(a, data))
  {
    SumOfAddress(a);
    SumOfCovered(a, data);
  }

  /** Completes the checksum and formats one record. */
  method FormatRecord(address: nat, reclen: nat, collected: nat, hex: string, ghost data: seq<Byte>) returns (record: string)
    requires 0 < reclen == |data| <= SREC_BYTES_PER_RECORD && collected == Sum(data) && hex == HexAll(data)
    ensures IsRecord(record, Item(address, data))
    ensures |record| + 1 <= 2 * SREC_BYTES_PER_RECORD + 16
  {
    var length := 4 + reclen + 1;
    var checksum: nat := collected;
    checksum := checksum + length;
    checksum := checksum + address % 256;
    checksum := checksum + address / 0x100 % 256;
    checksum := checksum + address / 0x1_0000 % 256;
    checksum := checksum + address / 0x100_0000 % 256;
    RunningChecksum(address, data, checksum);
    checksum := 255 - checksum % 256;
    var field := BigEndian(address);
    AssembledRecord(address, data, length, checksum, field);
    RecordWellFormed(address, data);
    record := "S3" + (Hex2(length) + HexAll(field) + hex + Hex2(checksum)) + "\n";
  }

  /** Sixteen collected bytes, or the last ones, make the next record. */
  lemma DumpStep(a: nat, rest: seq<Byte>, reclen: nat)
    requires 0 < reclen <= |rest| && reclen <= SREC_BYTES_PER_RECORD
    requires reclen == SREC_BYTES_PER_RECORD || reclen == |rest|
    ensures Items(a, rest) == [Item(a, rest[..reclen])] + Items(a + reclen, rest[reclen..])
  {
  }

  /** The first `n` bytes have been turned into `data` and summed up. */
  ghost predicate Collected(rest: seq<Byte>, n: nat, data: string, checksum: nat) {
    n <= |rest| && data == HexAll(rest[..n]) && checksum == Sum(rest[..n])
  }

  lemma NothingCollected(rest: seq<Byte>)
    ensures Collected(rest, 0, "", 0)
  {
  }

  lemma CollectStep(rest: seq<Byte>, n: nat, data: string, checksum: nat)
    requires Collected(rest, n, data, checksum) && n < |rest|
    ensures Collected(rest, n + 1, data + Hex2(rest[n]), checksum + rest[n])
  {
    assert rest[..n + 1][..n] == rest[..n];
  }

  lemma {:induction false} ConcatStep(lines: seq<string>, line: string)
    ensures Concat(lines + [line]) == Concat(lines) + line
    decreases |lines|
  {
    if lines == [] {
      assert lines + [line] == [line] && Concat([line][1..]) == [] && line + [] == line;
    } else {
      ConcatStep(lines[1..], line);
      assert (lines + [line])[1..] == lines[1..] + [line];
      assert lines[0] + (Concat(lines[1..]) + line) == lines[0] + Concat(lines[1..]) + line;
    }
  }

  /** Of the records of `all`, `lines` are out, and `rest`, from address `a` on,
      is still to be cut up. */
  ghost predicate Remaining(all: seq<Item>, lines: seq<string>, a: nat, rest: seq<Byte>) {
    && |lines| <= |all|
    && AreRecords(lines, all[..|lines|])
    && Items(a, rest) == all[|lines|..]
  }

  lemma RemainingStep(all: seq<Item>, lines: seq<string>, a: nat, rest: seq<Byte>, reclen: nat, line: string)
    requires Remaining(all, lines, a, rest) && 0 < reclen <= |rest| && reclen <= SREC_BYTES_PER_RECORD
    requires reclen == SREC_BYTES_PER_RECORD || reclen == |rest|
    requires IsRecord(line, Item(a, rest[..reclen]))
    ensures Remaining(all, lines + [line], a + reclen, rest[reclen..])
  {
    DumpStep(a, rest, reclen);
    var n := |lines|;
    var tail := all[n..];
    assert tail[0] == all[n] && tail[1..] == all[n + 1..];
    assert forall k :: 0 <= k < n ==> all[..n + 1][k] == all[..n][k];
  }

  lemma Advance(mem: Memory, a: nat, image: seq<Byte>, n: nat)
    requires HoldsImage(mem, a, image) && n <= |image|
    ensures HoldsImage(mem, a + n, image[n..])
  {
    forall i | 0 <= i < |image| - n ensures HoldsByte(mem, a + n + i, image[n..][i]) {
      assert HoldsByte(mem, a + (n + i), image[n + i]);
    }
  }

  /** The text is an upload of `image` from address `a`: the header, one record
      for each sixteen bytes or the last ones, and the final record. */
  ghost predicate IsUpload(text: string, a: nat, image: seq<Byte>) {
    exists lines :: text == SREC3_START + Concat(lines) + SREC3_END && AreRecords(lines, Items(a, image))
  }

  /** The text is the header and the first `n` data records of an upload. */
  ghost predicate IsPartOfUpload(text: string, n: nat, a: nat, image: seq<Byte>) {
    n <= |Items(a, image)| && exists lines :: text == SREC3_START + Concat(lines) && AreRecords(lines, Items(a, image)[..n])
  }

  ghost predicate FirstStop(ctrlc: nat -> bool, n: nat) {
    ctrlc(n) && Going(ctrlc, n)
  }

  /** ^C has not been seen after the first `n` records. */
  ghost predicate Going(ctrlc: nat -> bool, n: nat) {
    forall i :: 0 <= i < n ==> !ctrlc(i)
  }

  /** `save_serial`: the header, the data records and the final record.  `ctrlc`
      says after which of them ^C is seen, which ends the upload with -1. */
  method SaveSerial(mem: Memory, start: nat, total: nat, ctrlc: nat -> bool, ghost image: seq<Byte>)
      returns (rc: int, sent: string)
    requires HoldsImage(mem, start, image) && |image| == total && start + total <= WORD
    ensures rc == 0 || rc == -1
    ensures rc == 0 <==> Going(ctrlc, |Items(start, image)| + 2)
    ensures Going(ctrlc, |Items(start, image)| + 1) ==> IsUpload(sent, start, image)
    ensures forall n :: 0 <= n <= |Items(start, image)| && FirstStop(ctrlc, n) ==> IsPartOfUpload(sent, n, start, image)
  {
    sent := SREC3_START;
    if ctrlc(0) {
      NothingSent(sent, start, image);
      return -1, sent;
    }
    ghost var lines;
    var out, stopped;
    stopped, out, lines := DumpRecords(mem, start, total, ctrlc, image);
    sent := sent + out;
    if stopped { return -1, sent; }
    sent := sent + SREC3_END;
    ItemCount(start, image);
    rc := if ctrlc(1 + (total + SREC_BYTES_PER_RECORD - 1) / SREC_BYTES_PER_RECORD) then -1 else 0;
  }

  lemma NothingSent(text: string, a: nat, image: seq<Byte>)
    requires text == SREC3_START
    ensures IsPartOfUpload(text, 0, a, image)
  {
    assert text + Concat([]) == text;
    assert AreRecords([], Items(a, image)[..0]);
  }

  /** One record for each sixteen bytes begun. */
  lemma {:induction false} ItemCount(a: nat, image: seq<Byte>)
    ensures |Items(a, image)| == (|image| + SREC_BYTES_PER_RECORD - 1) / SREC_BYTES_PER_RECORD
    decreases |image|
  {
    if image != [] { ItemCount(a + RecordSize(|image|), image[RecordSize(|image|)..]); }
  }

  /** The records `lines` of `all` are out, ^C has not been seen, and `rest`, from
      address `a` on, is still to be sent. */
  ghost predicate Underway(all: seq<Item>, lines: seq<string>, out: string, a: nat, rest: seq<Byte>, ctrlc: nat -> bool, records: nat) {
    Remaining(all, lines, a, rest) && out == Concat(lines) && records == |lines| + 1 && Going(ctrlc, records)
  }

  /** ^C has been seen after the records `lines` of `all`. */
  ghost predicate StoppedAt(all: seq<Item>, lines: seq<string>, out: string, ctrlc: nat -> bool) {
    |lines| <= |all| && out == Concat(lines) && AreRecords(lines, all[..|lines|]) && FirstStop(ctrlc, |lines|)
  }

  /** All records are out. */
  ghost predicate AllSent(all: seq<Item>, lines: seq<string>, out: string, ctrlc: nat -> bool) {
    |lines| == |all| && out == Concat(lines) && AreRecords(lines, all) && Going(ctrlc, |lines| + 1)
  }

  lemma UnderwayStart(all: seq<Item>, a: nat, image: seq<Byte>, ctrlc: nat -> bool)
    requires all == Items(a, image) && !ctrlc(0)
    ensures Underway(all, [], "", a, image, ctrlc, 1)
  {
  }

  lemma UnderwayEnd(all: seq<Item>, lines: seq<string>, out: string, a: nat, rest: seq<Byte>, ctrlc: nat -> bool, records: nat)
    requires Underway(all, lines, out, a, rest, ctrlc, records) && rest == []
    ensures AllSent(all, lines, out, ctrlc)
  {
    assert all[..|lines|] == all;
  }

  /** Takes one more byte from memory. */
  method CollectByte(mem: Memory, address: nat, reclen: nat, collected: string, sum: nat, ghost rest: seq<Byte>)
      returns (data: string, checksum: nat)
    requires HoldsImage(mem, address, rest) && reclen < |rest| && Collected(rest, reclen, collected, sum)
    ensures Collected(rest, reclen + 1, data, checksum)
  {
    assert HoldsByte(mem, address + reclen, rest[reclen]);
    CollectStep(rest, reclen, collected, sum);
    var c := mem[address + reclen];
    data, checksum := collected + Hex2(c), sum + c;
  }

  /** Builds one record from what has been collected and sends it. */
  method DumpRecord(address: nat, reclen: nat, checksum: nat, data: string, sent: string, records: nat, ctrlc: nat -> bool,
                    ghost all: seq<Item>, ghost lines: seq<string>, ghost rest: seq<Byte>)
      returns (stopped: bool, out: string, count: nat, ghost more: seq<string>)
    requires Underway(all, lines, sent, address, rest, ctrlc, records) && Collected(rest, reclen, data, checksum)
    requires 0 < reclen <= SREC_BYTES_PER_RECORD && (reclen == SREC_BYTES_PER_RECORD || reclen == |rest|)
    ensures if stopped then StoppedAt(all, more, out, ctrlc)
            else Underway(all, more, out, address + reclen, rest[reclen..], ctrlc, count)
  {
    var record := FormatRecord(address, reclen, checksum, data, rest[..reclen]);
    RemainingStep(all, lines, address, rest, reclen, record);
    ConcatStep(lines, record);
    stopped, out, count, more := ctrlc(records), sent + record, records + 1, lines + [record];
  }

  /** Collects bytes one at a time and dumps a record whenever sixteen are there
      or the last one has come. */
  method DumpRecords(mem: Memory, start: nat, total: nat, ctrlc: nat -> bool, ghost image: seq<Byte>)
      returns (stopped: bool, out: string, ghost lines: seq<string>)
    requires HoldsImage(mem, start, image) && |image| == total && start + total <= WORD && !ctrlc(0)
    ensures if stopped then StoppedAt(Items(start, image), lines, out, ctrlc) else AllSent(Items(start, image), lines, out, ctrlc)
  {
    stopped, out, lines := false, "", [];
    var records := 1;
    var address: nat, count: nat, reclen: nat, checksum: nat, data := start, total, 0, 0, "";
    ghost var rest, all := image, Items(start, image);
    UnderwayStart(all, start, image, ctrlc);
    NothingCollected(rest);
    while true
      invariant |rest| == reclen + count && HoldsImage(mem, address, rest)
      invariant reclen < SREC_BYTES_PER_RECORD && (reclen > 0 ==> count > 0)
      invariant Collected(rest, reclen, data, checksum)
      invariant Underway(all, lines, out, address, rest, ctrlc, records)
      decreases count
    {
      if count != 0 {
        data, checksum := CollectByte(mem, address, reclen, data, checksum, rest);
        reclen := reclen + 1;
        count := count - 1;
      }
      if reclen == SREC_BYTES_PER_RECORD || count == 0 {
        Advance(mem, address, rest, reclen);
        if reclen != 0 {
          stopped, out, records, lines := DumpRecord(address, reclen, checksum, data, out, records, ctrlc, all, lines, rest);
          if stopped { return; }
          rest := rest[reclen..];
        }
        address, checksum, reclen, data := address + reclen, 0, 0, "";
        NothingCollected(rest);
      }
      if count == 0 { break; }
    }
    UnderwayEnd(all, lines, out, address, rest, ctrlc, records);
  }

  // ----- loading

  /** How reading a line from the console ends. */
  datatype Reading = GotLine(line: string, next: nat) | Hangup | Silence

  /** `read_record`, with `text[from..to]` read so far: a line ends at CR or LF
      or when the buffer is full; NUL and ^C hang up. */
  function ReadRecord(text: string, from: nat, to: nat): (r: Reading)
    requires from <= to <= |text| && to - from <= SREC_MAXRECLEN
    ensures r.GotLine? ==> from < r.next <= |text| || r.next == to
    decreases |text| - to
  {
    if to - from == SREC_MAXRECLEN then GotLine(text[from..to], to)
    else if to == |text| then Silence
    else if text[to] == '\r' || text[to] == '\n' then GotLine(text[from..to], to + 1)
    else if text[to] == '\0' || text[to] as int == 3 then Hangup
    else ReadRecord(text, from, to + 1)
  }

  lemma {:induction false} ReadAdvances(text: string, from: nat, to: nat)
    requires from <= to <= |text| && to - from <= SREC_MAXRECLEN
    ensures var r := ReadRecord(text, from, to); r.GotLine? ==> from < r.next <= |text|
    decreases |text| - to
  {
    if to - from < SREC_MAXRECLEN && to < |text| {
      ReadAdvances(text, from, to + 1);
    }
  }

  function Put(mem: Memory, a: nat, data: seq<Byte>): Memory {
    if data == [] then mem else Put(mem, a, data[..|data| - 1])[a + |data| - 1 := data[|data| - 1]]
  }

  /** Lowest and highest address stored to, and memory. */
  datatype Tally = Tally(first: nat, last: nat, mem: Memory)

  function Fresh(mem: Memory): Tally {
    Tally(WORD - 1, 0, mem)
  }

  function Store(t: Tally, offset: int, i: Item): Tally {
    var a := Target(i, offset);
    var z := (a + |i.data| - 1) % WORD;
    Tally(if a < t.first then a else t.first, if z > t.last then z else t.last, Put(t.mem, a, i.data))
  }

  datatype Outcome =
    | Loaded(entry: nat, first: nat, last: nat, size: nat, mem: Memory)
    | Failed(mem: Memory)
    | Waiting(mem: Memory)

  /** What the console delivers: lines, until it hangs up or falls silent. */
  datatype Input = Line(line: string, more: Input) | HungUp | Quiet

  function Lines(text: string, from: nat): Input
    requires from <= |text|
    decreases |text| - from
  {
    ReadAdvances(text, from, from);
    match ReadRecord(text, from, from)
    case Silence => Quiet
    case Hangup => HungUp
    case GotLine(line, next) => Line(line, Lines(text, next))
  }

  /** What the download writes to: `chip(a, data)` says whether the write goes
      through, as it always does in plain memory. */
  type Chip = (nat, seq<Byte>) -> bool

  function Target(i: Item, offset: int): nat {
    (i.addr + offset) % WORD
  }

  /** The download as a function of the lines. */
  function Load(chip: Chip, input: Input, offset: int, t: Tally): Outcome {
    match input
    case Quiet => Waiting(t.mem)
    case HungUp => Failed(t.mem)
    case Line(line, more) =>
      match Decode(line)
      case Bad => Failed(t.mem)
      case Data(addr, data) =>
        if chip(Target(Item(addr, data), offset), data) then Load(chip, more, offset, Store(t, offset, Item(addr, data)))
        else Failed(t.mem)
      case End(addr) => Loaded(addr, t.first, t.last, (t.last - t.first + 1) % WORD, t.mem)
      case _ => Load(chip, more, offset, t)
  }

  method ReadLine(text: string, from: nat) returns (r: Reading)
    requires from <= |text|
    ensures r == ReadRecord(text, from, from)
  {
    var p := from;
    while p - from < SREC_MAXRECLEN
      invariant from <= p <= |text| && p - from <= SREC_MAXRECLEN
      invariant ReadRecord(text, from, p) == ReadRecord(text, from, from)
    {
      if p == |text| { return Silence; }
      var c := text[p];
      if c == '\r' || c == '\n' { return GotLine(text[from..p], p + 1); }
      if c == '\0' || c as int == 3 { return Hangup; }
      p := p + 1;
    }
    r := GotLine(text[from..p], p);   // line too long
  }

  /** `load_serial`. */
  method LoadSerial(chip: Chip, text: string, offset: int, mem: Memory) returns (r: Outcome)
    ensures r == Load(chip, Lines(text, 0), offset, Fresh(mem))
  {
    var t := Fresh(mem);
    var pos := 0;
    while true
      invariant pos <= |text| && Load(chip, Lines(text, pos), offset, t) == Load(chip, Lines(text, 0), offset, Fresh(mem))
      decreases |text| - pos
    {
      ReadAdvances(text, pos, pos);
      var line := ReadLine(text, pos);
      if line.Silence? { return Waiting(t.mem); }
      if line.Hangup? { return Failed(t.mem); }
      pos := line.next;
      match Decode(line.line)
      case Bad => return Failed(t.mem);
      case Data(addr, data) =>
        if !chip(Target(Item(addr, data), offset), data) { return Failed(t.mem); }
        t := Store(t, offset, Item(addr, data));
      case End(addr) => return Loaded(addr, t.first, t.last, (t.last - t.first + 1) % WORD, t.mem);
      case _ =>
    }
  }

  // ----- round trip

  /** Characters that neither end a line nor hang up. */
  predicate Clean(s: string) {
    forall i :: 0 <= i < |s| ==> ' ' < s[i]
  }

  lemma {:induction false} HexClean(s: seq<Byte>)
    ensures Clean(HexAll(s))
    decreases |s|
  {
    if s != [] { HexClean(s[..|s| - 1]); }
  }

  /** A clean line of moderate length is read back whole. */
  lemma {:induction false} ReadCleanLine(text: string, from: nat, line: string, k: nat)
    requires Has(text, from, line + "\n") && Clean(line) && |line| < SREC_MAXRECLEN && k <= |line|
    ensures ReadRecord(text, from, from + k) == GotLine(line, from + |line| + 1)
    decreases |line| - k
  {
    var whole := line + "\n";
    assert text[from + k] == text[from..from + |whole|][k] == whole[k];
    if k < |line| {
      ReadCleanLine(text, from, line, k + 1);
    } else {
      assert text[from..from + k] == text[from..from + |whole|][..k] == line;
    }
  }

  lemma ReadsLine(text: string, from: nat, line: string)
    requires Has(text, from, line + "\n") && Clean(line) && |line| < SREC_MAXRECLEN
    ensures Lines(text, from) == Line(line, Lines(text, from + |line| + 1))
  {
    ReadCleanLine(text, from, line, 0);
  }

  /** `line` ends with a line feed and is otherwise clean and short enough. */
  ghost predicate Readable(line: string, l: string) {
    line == l + "\n" && Clean(l) && |l| < SREC_MAXRECLEN
  }

  function Prepend(ls: seq<string>, input: Input): Input {
    if ls == [] then input else Line(ls[0], Prepend(ls[1..], input))
  }

  /** Lines one after the other in the text are read one after the other. */
  lemma {:induction false} ReadsLines(text: string, from: nat, lines: seq<string>, ls: seq<string>)
    requires Has(text, from, Concat(lines))
    requires |ls| == |lines| && forall k :: 0 <= k < |ls| ==> Readable(lines[k], ls[k])
    ensures Lines(text, from) == Prepend(ls, Lines(text, from + |Concat(lines)|))
    decreases |lines|
  {
    if lines != [] {
      var next, rest := from + |lines[0]|, lines[1..];
      assert Readable(lines[0], ls[0]);
      HasParts(text, from, lines[0], Concat(rest));
      assert Lines(text, from) == Line(ls[0], Lines(text, next)) by { ReadsLine(text, from, ls[0]); }
      assert Lines(text, next) == Prepend(ls[1..], Lines(text, next + |Concat(rest)|)) by { ReadsLines(text, next, rest, ls[1..]); }
    }
  }

  function StoreAll(t: Tally, offset: int, items: seq<Item>): Tally
    decreases |items|
  {
    if items == [] then t else StoreAll(Store(t, offset, items[0]), offset, items[1..])
  }

  /** Every write of the items goes through. */
  predicate Writable(chip: Chip, offset: int, items: seq<Item>) {
    forall k :: 0 <= k < |items| ==> chip(Target(items[k], offset), items[k].data)
  }

  lemma {:induction false} LoadRecords(chip: Chip, ls: seq<string>, input: Input, items: seq<Item>, offset: int, t: Tally)
    requires |ls| == |items| && forall k :: 0 <= k < |ls| ==> Decode(ls[k]) == Data(items[k].addr, items[k].data)
    ensures if Writable(chip, offset, items) then Load(chip, Prepend(ls, input), offset, t) == Load(chip, input, offset, StoreAll(t, offset, items))
            else Load(chip, Prepend(ls, input), offset, t).Failed?
    decreases |items|
  {
    if items != [] {
      assert Decode(ls[0]) == Data(items[0].addr, items[0].data);
      WritableCons(chip, offset, items);
      LoadRecords(chip, ls[1..], input, items[1..], offset, Store(t, offset, items[0]));
    }
  }

  lemma WritableCons(chip: Chip, offset: int, items: seq<Item>)
    requires items != []
    ensures Writable(chip, offset, items) <==> chip(Target(items[0], offset), items[0].data) && Writable(chip, offset, items[1..])
  {
    assert forall k :: 0 < k < |items| ==> items[k] == items[1..][k - 1];
  }

  /** The line of a data record: it can be read, and decodes to the item. */
  lemma RecordReads(i: Item) returns (l: string)
    requires |i.data| <= SREC_BYTES_PER_RECORD && i.addr < WORD
    ensures l == DataLine(i.addr, i.data) && Clean(l) && |l| < SREC_MAXRECLEN && Decode(l) == Data(i.addr, i.data)
  {
    l := DataLine(i.addr, i.data);
    HexClean(Payload(i.addr, i.data));
    DecodeDataLine(i.addr, i.data);
  }
}
