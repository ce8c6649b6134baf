/** Records of every type as a programmer's tool writes them, and damaged ones. */
module SRecordTypes {
  import opened Arithmetic
  import opened SRecord

  // ----- well-formed records

  /** `a` in `width` bytes, most significant first. */
  function Octets(a: nat, width: nat): (s: seq<Byte>)
    ensures |s| == width
  {
    if width == 0 then [] else Octets(a / 256, width - 1) + [a % 256]
  }

  /** How many addresses `width` bytes can name. */
  function Reach(width: nat): nat {
    if width == 0 then 1 else 256 * Reach(width - 1)
  }

  lemma {:induction false} NumberOfOctets(a: nat, width: nat)
    requires a < Reach(width)
    ensures Number(Octets(a, width)) == a
  {
    if width > 0 {
      NumberOfOctets(a / 256, width - 1);
      var s := Octets(a, width);
      assert s[..|s| - 1] == Octets(a / 256, width - 1);
    }
  }

  /** The bytes of a record: count, address, data and checksum. */
  function Fields(width: nat, a: nat, data: seq<Byte>): seq<Byte>
    requires width + |data| < 255
  {
    var s: seq<Byte> := [width + |data| + 1] + Octets(a, width) + data;
    s + [255 - Sum(s) % 256]
  }

  /** A record of the type `kind` with an address of `width` bytes. */
  function RecordText(kind: char, width: nat, a: nat, data: seq<Byte>): string
    requires width + |data| < 255
  {
    ['S', kind] + HexAll(Fields(width, a, data))
  }

  lemma FieldsParts(width: nat, a: nat, data: seq<Byte>)
    requires width + |data| < 255
    ensures var p := Fields(width, a, data);
            && Sealed(p, width)
            && p[..|p| - 1][1..1 + width] == Octets(a, width) && p[..|p| - 1][1 + width..] == data
  {
    var s: seq<Byte> := [width + |data| + 1] + Octets(a, width) + data;
    assert Fields(width, a, data)[..|s|] == s;
    assert s[1..1 + width] == Octets(a, width) && s[1 + width..] == data;
  }

  /** Data records of two, three and four address bytes. */
  predicate DataKind(kind: char, width: nat) {
    (kind == '1' && width == 2) || (kind == '2' && width == 3) || (kind == '3' && width == 4)
  }

  /** Final records of four, three and two address bytes. */
  predicate FinalKind(kind: char, width: nat) {
    (kind == '7' && width == 4) || (kind == '8' && width == 3) || (kind == '9' && width == 2)
  }

  /** A record decodes to the address and the data written into it; a final record
      to its entry address. */
  lemma RecordDecodes(kind: char, width: nat, a: nat, data: seq<Byte>)
    requires width + |data| < 255 && a < Reach(width) && (DataKind(kind, width) || FinalKind(kind, width))
    ensures Decode(RecordText(kind, width, a, data)) == if DataKind(kind, width) then Data(a, data) else End(a)
  {
    var p := Fields(width, a, data);
    FieldsParts(width, a, data);
    assert AddressWidth(kind) == width && Sealed(p, width);
    var bytes := p[..|p| - 1];
    assert Number(bytes[1..1 + width]) == a by { NumberOfOctets(a, width); }
    MeaningOf(kind, width, bytes, a, data);
    DecodeSealed(RecordText(kind, width, a, data), kind, p);
  }

  lemma MeaningOf(kind: char, width: nat, bytes: seq<Byte>, a: nat, data: seq<Byte>)
    requires |bytes| > width && Number(bytes[1..1 + width]) == a && bytes[1 + width..] == data
    requires DataKind(kind, width) || FinalKind(kind, width)
    ensures AddressWidth(kind) == width
    ensures Meaning(kind, bytes) == if DataKind(kind, width) then Data(a, data) else End(a)
  {
  }

  /** A header, whatever it says, is only that. */
  lemma HeaderDecodes(a: nat, data: seq<Byte>)
    requires |data| < 253
    ensures Decode(RecordText('0', 2, a, data)) == Start
  {
    FieldsParts(2, a, data);
    DecodeSealed(RecordText('0', 2, a, data), '0', Fields(2, a, data));
  }

  /** "S705FFF000000B", the last line of the boot loader's own image, names entry 0xFFF00000. */
  lemma BootEntry(s: string)
    requires s == "S7" + ("05" + "FFF00000" + "" + "0B")
    ensures Decode(s) == End(0xFFF0_0000)
  {
    var z: seq<Byte> := [0xFF, 0xF0, 0, 0];
    var p := Seal(5, z, 0x0B);
    assert s == ['S', '7'] + HexAll(p) by { BootText(); }
    assert Sealed(p, 4) && p[..5][1..5] == z && Number(z) == 0xFFF0_0000 by {
      HexOfFour(z);
      SealSums(5, z, 0x0B);
      assert p[..5][1..5] == p[1..5];
    }
    DecodeSealed(s, '7', p);
  }

  lemma BootText()
    ensures HexAll(Seal(5, [0xFF, 0xF0, 0, 0], 0x0B)) == "05" + "FFF00000" + "" + "0B"
  {
    var z: seq<Byte> := [0xFF, 0xF0, 0, 0];
    assert Hex2(5) == "05" && Hex2(0xFF) == "FF" && Hex2(0xF0) == "F0" && Hex2(0) == "00" && Hex2(0x0B) == "0B";
    assert HexAll(z) == "FFF00000" by { HexOfFour(z); }
    HexOfFields(5, z, [], 0x0B);
    assert HexAll([]) == "";
  }

  // ----- damaged records

  /** Start, data and final records. */
  predicate Typed(kind: char) {
    '0' <= kind <= '3' || '7' <= kind <= '9'
  }

  /** A record of a known type whose count is right is refused if and only if its
      checksum is wrong. */
  lemma RefusedIff(kind: char, p: seq<Byte>)
    requires Typed(kind) && |p| >= AddressWidth(kind) + 2 && p[0] == |p| - 1
    ensures Decode(['S', kind] + HexAll(p)) == Bad <==> p[|p| - 1] != 255 - Sum(p[..|p| - 1]) % 256
  {
    var s, n := ['S', kind] + HexAll(p), |p| - 1;
    SealedText(s, kind, p);
    FieldsJudged(s, kind, p);
    JudgedIff(kind, p[..n], p[n]);
  }

  lemma FieldsJudged(s: string, kind: char, p: seq<Byte>)
    requires Typed(kind) && |p| >= AddressWidth(kind) + 2 && p[0] == |p| - 1 && AfterS(s, 0) == 1 && 1 < |s| && s[1] == kind
    requires Value2(s, 2) == p[0] && Pairs(s, 2, |p| - 1) == Some(p[..|p| - 1]) && Value2(s, 2 + 2 * (|p| - 1)) == p[|p| - 1]
    ensures Decode(s) == Judge(kind, Some(p[..|p| - 1]), p[|p| - 1])
  {
    assert FieldBytes(kind, p[0]) == |p| - 1;
    FieldsAre(s, 2, kind, p[0], |p| - 1, Some(p[..|p| - 1]), p[|p| - 1]);
  }

  lemma JudgedIff(kind: char, bytes: seq<Byte>, check: Byte)
    requires Typed(kind) && |bytes| >= 1 + AddressWidth(kind)
    ensures Judge(kind, Some(bytes), check) == Bad <==> check != 255 - Sum(bytes) % 256
  {
  }

  /** One wrong byte after the count, in address, data or checksum, is always seen. */
  lemma OneByteSeen(kind: char, p: seq<Byte>, i: nat, b: Byte)
    requires Typed(kind) && Sealed(p, AddressWidth(kind)) && 0 < i < |p| && b != p[i]
    ensures Decode(['S', kind] + HexAll(p[i := b])) == Bad
  {
    var n, q := |p| - 1, p[i := b];
    assert q[n] != 255 - Sum(q[..n]) % 256 by { CheckDiffers(p, i, b); }
    RefusedIff(kind, q);
  }

  lemma CheckDiffers(p: seq<Byte>, i: nat, b: Byte)
    requires 0 < i < |p| && b != p[i] && p[|p| - 1] == 255 - Sum(p[..|p| - 1]) % 256
    ensures p[i := b][|p| - 1] != 255 - Sum(p[i := b][..|p| - 1]) % 256
  {
    var n, q := |p| - 1, p[i := b];
    if i == n {
      assert q[..n] == p[..n];
    } else {
      assert q[..n] == p[..n][i := b];
      SumUpdate(p[..n], i, b);
      ShiftSeen(Sum(p[..n]), b as int - p[i]);
    }
  }

  lemma ShiftSeen(sum: int, d: int)
    ensures (sum + d) % 256 == sum % 256 ==> d % 256 == 0
  {
    var k := (sum + d) / 256 - sum / 256;
    assert d == 256 * k + ((sum + d) % 256 - sum % 256);
  }

  /** A record cut short anywhere behind its first letter is refused. */
  lemma CutShort(kind: char, p: seq<Byte>, k: nat)
    requires Typed(kind) && Sealed(p, AddressWidth(kind)) && 2 <= k < 2 + 2 * |p|
    ensures Decode((['S', kind] + HexAll(p))[..k]) == Bad
  {
    var whole, n := ['S', kind] + HexAll(p), |p| - 1;
    var s := whole[..k];
    assert s[0] == 'S' && s[1] == kind;
    assert AfterS(s, 0) == 1;
    assert Decode(s) == DecodeFields(s, 2, kind);
    if k >= 4 {
      assert Value2(s, 2) == n by {
        SealedText(whole, kind, p);
        assert Value2(s, 2) == Value2(whole, 2);
      }
      NoCheck(s, kind, n);
    }
  }

  /** The checksum is missing. */
  lemma NoCheck(s: string, kind: char, n: nat)
    requires Typed(kind) && Value2(s, 2) == n && n > AddressWidth(kind) && |s| < 4 + 2 * n
    ensures DecodeFields(s, 2, kind) == Bad
  {
    FieldsAre(s, 2, kind, n, n, Pairs(s, 2, n), -1);
  }

  /** Other types are refused. */
  lemma UnknownRefused(kind: char, rest: string)
    requires !Typed(kind) && kind != '5'
    ensures Decode(['S', kind] + rest) == Bad
  {
    var s := ['S', kind] + rest;
    assert s[0] == 'S' && s[1] == kind;
    assert AfterS(s, 0) == 1;
    assert AddressWidth(kind) == 0;
  }

  /** What stands before the first S is skipped. */
  lemma {:induction false} LeadSkipped(pre: string, s: string, i: nat)
    requires i <= |pre| && (forall k :: 0 <= k < |pre| ==> pre[k] != 'S')
    ensures AfterS(pre + s, i) == |pre| + AfterS(s, 0)
    decreases |pre| - i
  {
    if i < |pre| {
      LeadSkipped(pre, s, i + 1);
    } else {
      AfterShift(pre, s, 0);
    }
  }

  lemma {:induction false} AfterShift(pre: string, s: string, k: nat)
    requires k <= |s|
    ensures AfterS(pre + s, |pre| + k) == |pre| + AfterS(s, k)
    decreases |s| - k
  {
    if k < |s| {
      assert (pre + s)[|pre| + k] == s[k];
      AfterShift(pre, s, k + 1);
    }
  }
}
