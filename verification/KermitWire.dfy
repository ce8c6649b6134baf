/** Kermit framing: the type-1 block check, frames as a sender builds them, and
    the control half of the receive loop, which cuts a byte stream into packet
    attempts and decides whether each attempt is accepted.
 */
module KermitWire {
  import opened Arithmetic

  const START_CHAR: Byte := 0x01
  const ETX_CHAR: Byte := 0x03
  const END_CHAR: Byte := 0x0D
  const SPACE: Byte := 0x20
  const K_ESCAPE: Byte := 0x23
  const SEND_TYPE: Byte := 0x53   // 'S'
  const DATA_TYPE: Byte := 0x44   // 'D'
  const ACK_TYPE: Byte := 0x59    // 'Y'
  const NACK_TYPE: Byte := 0x4E   // 'N'
  const BREAK_TYPE: Byte := 0x42  // 'B'

  function ToChar(x: int): Byte {
    (x + SPACE) % 256
  }

  function UnToChar(b: Byte): Byte {
    (b - SPACE) % 256
  }

  /** The 6-bit type-1 check of a running sum. */
  function BlockCheck(sum: nat): (r: Byte)
    ensures r < 64
  {
    (sum + (sum / 64) % 4) % 64
  }

  /** The sender's form of the check: a loop over a packet up to its NUL
      terminator, here the end of the sequence. */
  method Chk1(buffer: seq<Byte>) returns (check: Byte)
    ensures check == BlockCheck(Sum(buffer))
  {
    var total: nat := 0;
    for i := 0 to |buffer|
      invariant total == Sum(buffer[..i])
    {
      assert buffer[..i + 1][..i] == buffer[..i];
      total := total + buffer[i];
    }
    assert buffer[..|buffer|] == buffer;
    check := (total + (total / 64) % 4) % 64;
  }

  // ----- single-bit errors

  /** The eight weights a single flipped bit can carry. */
  predicate BitWeight(w: int) {
    w in {1, 2, 4, 8, 16, 32, 64, 128}
  }

  /** `b` and `c` differ in exactly one bit: the bit of weight `w` is clear in
      the smaller one and set in the larger one. */
  ghost predicate OneBitApart(b: Byte, c: Byte) {
    exists w ::
      && BitWeight(w)
      && ((c == b + w && (b / w) % 2 == 0) || (b == c + w && (c / w) % 2 == 0))
  }

  lemma CheckByQuarter(sum: nat)
    ensures BlockCheck(sum) == (sum % 64 + (sum / 64) % 4) % 64
  {
    var q, r, c := sum / 64, sum % 64, sum / 64 % 4;
    assert sum + c == 64 * q + (r + c);
    AddMultiple(q, r + c);
  }

  lemma AddMultiple(q: nat, x: nat)
    ensures (64 * q + x) % 64 == x % 64
  {
  }

  lemma CheckSeesShift(sum: nat, w: int)
    requires BitWeight(w)
    ensures BlockCheck(sum) != BlockCheck(sum + w)
  {
    CheckByQuarter(sum);
    CheckByQuarter(sum + w);
    var q, r := sum / 64, sum % 64;
    if w < 64 {
      var carry := if r + w < 64 then 0 else 1;
      assert (sum + w) / 64 == q + carry && (sum + w) % 64 == r + w - 64 * carry;
      CarryShows(q, r, w, carry);
    } else {
      assert (sum + w) / 64 == q + w / 64 && (sum + w) % 64 == r;
      QuarterShows(q, r, w / 64);
    }
  }

  lemma CarryShows(q: nat, r: nat, w: int, carry: int)
    requires r < 64 && BitWeight(w) && w < 64 && carry == if r + w < 64 then 0 else 1
    ensures (r + q % 4) % 64 != (r + w - 64 * carry + (q + carry) % 4) % 64
  {
    var c := q % 4;
    assert (q + carry) % 4 == (c + carry) % 4;
    CarryCase(c, r, w, carry);
  }

  lemma CarryCase(c: nat, r: nat, w: int, carry: int)
    requires c < 4 && r < 64 && BitWeight(w) && w < 64 && carry == if r + w < 64 then 0 else 1
    ensures (r + c) % 64 != (r + w - 64 * carry + (c + carry) % 4) % 64
  {
  }

  lemma QuarterShows(q: nat, r: nat, k: int)
    requires r < 64 && (k == 1 || k == 2)
    ensures (r + q % 4) % 64 != (r + (q + k) % 4) % 64
  {
    var c := q % 4;
    assert (q + k) % 4 == (c + k) % 4;
  }

  /** Two equally long covered sequences that differ in exactly one bit never
      have the same block check, whatever their length. */
  lemma CheckDetectsOneBit(s: seq<Byte>, i: nat, b: Byte)
    requires i < |s| && OneBitApart(s[i], b)
    ensures BlockCheck(Sum(s[i := b])) != BlockCheck(Sum(s))
  {
    SumUpdate(s, i, b);
    var x: int := s[i];
    var w :| BitWeight(w) && (b == x + w || x == b + w);
    if b == x + w {
      CheckSeesShift(Sum(s), w);
    } else {
      CheckSeesShift(Sum(s[i := b]), w);
    }
  }

  // ----- frames as the sender builds them

  datatype Packet = Packet(n: Byte, kind: Byte, data: seq<Byte>, long: bool)

  predicate Printable(s: seq<Byte>) {
    forall i :: 0 <= i < |s| ==> SPACE <= s[i]
  }

  /** What a sender may put in one packet: a six-bit sequence number, a
      printable type and printable data that fits the length encoding. */
  predicate Legal(p: Packet) {
    && p.n < 64
    && SPACE <= p.kind
    && Printable(p.data)
    && (if p.long then |p.data| + 1 < 95 * 95 else |p.data| + 3 <= 94)
  }

  /** The five long-header bytes that the header check covers. */
  function LongPrefix(p: Packet): seq<Byte> {
    [ToChar(0), ToChar(p.n), p.kind, ToChar((|p.data| + 1) / 95), ToChar((|p.data| + 1) % 95)]
  }

  /** Everything between the start character and the data. */
  function Header(p: Packet): seq<Byte> {
    if p.long then
      LongPrefix(p) + [ToChar(BlockCheck(Sum(LongPrefix(p))))]
    else
      [ToChar(|p.data| + 3), ToChar(p.n), p.kind]
  }

  function Covered(p: Packet): seq<Byte> {
    Header(p) + p.data
  }

  function Frame(p: Packet): seq<Byte> {
    [START_CHAR] + Covered(p) + [ToChar(BlockCheck(Sum(Covered(p)))), END_CHAR]
  }

  // ----- the control half of the receiver

  datatype Phase =
    | AwaitStart | AwaitLength | AwaitSeq | AwaitType
    | AwaitLenHi | AwaitLenLo | AwaitHeaderCheck | Body | AwaitEnd
    | Stopped

  /** The receive loop's locals; `n` survives from one attempt to the next
      because a negative acknowledgement repeats the last number seen. */
  datatype Control = Control(phase: Phase, sum: nat, length: int, n: Byte, kind: Byte)

  /** What the data half has to do about one byte. */
  datatype Action =
    | Quiet
    | Begin(n: Byte)
    | Payload(kind: Byte, b: Byte)
    | Reject(n: Byte)
    | Accept(kind: Byte, n: Byte)
    | Abort

  const POWER_ON := Control(AwaitStart, 0, 0, 0, 0)

  function Refuse(c: Control): (Control, Action) {
    (c.(phase := AwaitStart), Reject(c.n))
  }

  function Advance(c: Control, b: Byte): (Control, Action) {
    match c.phase
    case Stopped => (c, Quiet)
    case AwaitStart =>
      if b == START_CHAR then (Control(AwaitLength, 0, 0, c.n, 0), Quiet)
      else if b == ETX_CHAR then (c.(phase := Stopped), Abort)
      else (c, Quiet)
    case AwaitEnd =>
      if b != END_CHAR then Refuse(c)
      else (c.(phase := if c.kind == BREAK_TYPE then Stopped else AwaitStart), Accept(c.kind, c.n))
    case _ =>
      if b < SPACE then Refuse(c) else AdvancePrintable(c, b)
  }

  function AdvancePrintable(c: Control, b: Byte): (Control, Action)
    requires !c.phase.Stopped? && !c.phase.AwaitStart? && !c.phase.AwaitEnd?
  {
    var s := c.sum + b;
    match c.phase
    case AwaitLength =>
      (c.(phase := AwaitSeq, sum := s, length := UnToChar(b)), Quiet)
    case AwaitSeq =>
      (c.(phase := AwaitType, sum := s, length := c.length - 1, n := UnToChar(b)), Begin(UnToChar(b)))
    case AwaitType =>
      var length := c.length - 1;
      (c.(phase := if length == -2 then AwaitLenHi else Body, sum := s, length := length, kind := b), Quiet)
    case AwaitLenHi =>
      (c.(phase := AwaitLenLo, sum := s, length := UnToChar(b) * 95), Quiet)
    case AwaitLenLo =>
      (c.(phase := AwaitHeaderCheck, sum := s, length := c.length + UnToChar(b)), Quiet)
    case AwaitHeaderCheck =>
      if b != ToChar(BlockCheck(c.sum)) then Refuse(c) else (c.(phase := Body, sum := s), Quiet)
    case Body =>
      if c.length > 1 then (c.(sum := s, length := c.length - 1), Payload(c.kind, b))
      else if b != ToChar(BlockCheck(c.sum)) then Refuse(c)
      else (c.(phase := AwaitEnd), Quiet)
  }

  /** Control state after a byte string, and the actions it caused. */
  function Drive(c: Control, s: seq<Byte>): (r: (Control, seq<Action>))
    ensures |r.1| == |s|
    decreases |s|
  {
    if s == [] then (c, [])
    else
      var (c', actions) := Drive(c, s[..|s| - 1]);
      var (c'', a) := Advance(c', s[|s| - 1]);
      (c'', actions + [a])
  }

  lemma DriveStep(c: Control, s: seq<Byte>, b: Byte, d: Control, actions: seq<Action>)
    requires Drive(c, s) == (d, actions)
    ensures Drive(c, s + [b]) == (Advance(d, b).0, actions + [Advance(d, b).1])
  {
    assert (s + [b])[..|s + [b]| - 1] == s;
  }

  lemma {:induction false} DriveConcat(c: Control, s: seq<Byte>, t: seq<Byte>)
    ensures Drive(c, s + t) ==
            (Drive(Drive(c, s).0, t).0, Drive(c, s).1 + Drive(Drive(c, s).0, t).1)
    decreases |t|
  {
    if t == [] {
      assert s + t == s && Drive(c, s).1 + [] == Drive(c, s).1;
    } else {
      var u, b := t[..|t| - 1], t[|t| - 1];
      var (d, head) := Drive(c, s);
      var (e, tail) := Drive(d, u);
      DriveConcat(c, s, u);
      DriveStep(c, s + u, b, e, head + tail);
      DriveStep(d, u, b, e, tail);
      assert s + t == s + u + [b] && t == u + [b];
      assert head + tail + [Advance(e, b).1] == head + (tail + [Advance(e, b).1]);
    }
  }

  // ----- intact frames

  function Payloads(kind: Byte, data: seq<Byte>): seq<Action> {
    seq(|data|, i requires 0 <= i < |data| => Payload(kind, data[i]))
  }

  /** Data bytes inside a frame are passed on one by one. */
  lemma {:induction false} DriveData(c: Control, data: seq<Byte>)
    requires c.phase.Body? && c.length > |data| && Printable(data)
    ensures Drive(c, data) ==
            (c.(sum := c.sum + Sum(data), length := c.length - |data|), Payloads(c.kind, data))
    decreases |data|
  {
    if data != [] {
      var init := data[..|data| - 1];
      DriveData(c, init);
      assert Payloads(c.kind, data) == Payloads(c.kind, init) + [Payload(c.kind, data[|data| - 1])];
    }
  }

  /** The actions of the header of an intact frame. */
  function Opening(p: Packet): seq<Action>
    requires Legal(p)
  {
    if p.long then [Quiet, Quiet, Begin(p.n), Quiet, Quiet, Quiet, Quiet]
    else [Quiet, Quiet, Begin(p.n), Quiet]
  }

  /** Control state just before the data of a frame. */
  function AtData(p: Packet): Control
    requires Legal(p)
  {
    Control(Body, Sum(Header(p)), |p.data| + 1, p.n, p.kind)
  }

  lemma SumOf(s: seq<Byte>, b: Byte)
    ensures Sum(s + [b]) == Sum(s) + b
  {
    assert (s + [b])[..|s + [b]| - 1] == s;
  }

  lemma CharRoundTrip(x: int)
    requires 0 <= x < 224
    ensures SPACE <= ToChar(x) && UnToChar(ToChar(x)) == x
  {
  }

  /** The start character, the length and the sequence number. */
  lemma DriveToType(c: Control, length: nat, n: nat)
    requires c.phase.AwaitStart? && length < 224 && n < 64
    ensures var h := [ToChar(length), ToChar(n)];
            Drive(c, [START_CHAR] + h) ==
            (Control(AwaitType, Sum(h), length - 1, n, 0), [Quiet, Quiet, Begin(n)])
  {
    CharRoundTrip(length);
    CharRoundTrip(n);
    var x, y := ToChar(length), ToChar(n);
    var c0 := Control(AwaitLength, 0, 0, c.n, 0);
    var c1 := Control(AwaitSeq, x, length, c.n, 0);
    DriveStep(c, [], START_CHAR, c, []);
    DriveStep(c, [] + [START_CHAR], x, c0, [] + [Quiet]);
    DriveStep(c, [] + [START_CHAR] + [x], y, c1, [] + [Quiet] + [Quiet]);
    SumOf([], x);
    SumOf([x], y);
    assert [] + [x] == [x] && [x] + [y] == [x, y];
    assert [] + [START_CHAR] + [x] + [y] == [START_CHAR] + [x, y];
    assert [] + [Quiet] + [Quiet] + [Begin(n)] == [Quiet, Quiet, Begin(n)];
  }

  /** ... and the type. */
  lemma DriveType(c: Control, length: nat, n: nat, kind: Byte)
    requires c.phase.AwaitStart? && length < 224 && n < 64 && SPACE <= kind
    ensures var h := [ToChar(length), ToChar(n), kind];
            Drive(c, [START_CHAR] + h) ==
            (Control(if length == 0 then AwaitLenHi else Body, Sum(h), length - 2, n, kind),
             [Quiet, Quiet, Begin(n), Quiet])
  {
    var h := [ToChar(length), ToChar(n)];
    DriveToType(c, length, n);
    DriveStep(c, [START_CHAR] + h, kind, Control(AwaitType, Sum(h), length - 1, n, 0), [Quiet, Quiet, Begin(n)]);
    SumOf(h, kind);
    assert [START_CHAR] + h + [kind] == [START_CHAR] + (h + [kind]);
    assert [ToChar(length), ToChar(n), kind] == h + [kind];
    assert [Quiet, Quiet, Begin(n)] + [Quiet] == [Quiet, Quiet, Begin(n), Quiet];
  }

  lemma DriveExtension(c: Control, n: nat, kind: Byte, hi: Byte, lo: Byte)
    requires c.phase.AwaitStart? && n < 64 && SPACE <= kind && SPACE <= hi && SPACE <= lo
    ensures var h := [ToChar(0), ToChar(n), kind, hi, lo];
            Drive(c, [START_CHAR] + h) ==
            (Control(AwaitHeaderCheck, Sum(h), UnToChar(hi) as int * 95 + UnToChar(lo), n, kind),
             [Quiet, Quiet, Begin(n), Quiet, Quiet, Quiet])
  {
    var h := [ToChar(0), ToChar(n), kind];
    var opening := [Quiet, Quiet, Begin(n), Quiet];
    DriveType(c, 0, n, kind);
    DriveStep(c, [START_CHAR] + h, hi, Control(AwaitLenHi, Sum(h), -2, n, kind), opening);
    SumOf(h, hi);
    DriveStep(c, [START_CHAR] + h + [hi], lo,
              Control(AwaitLenLo, Sum(h + [hi]), UnToChar(hi) as int * 95, n, kind), opening + [Quiet]);
    SumOf(h + [hi], lo);
    assert [START_CHAR] + h + [hi] + [lo] == [START_CHAR] + [ToChar(0), ToChar(n), kind, hi, lo];
    assert [ToChar(0), ToChar(n), kind, hi, lo] == h + [hi] + [lo];
    assert opening + [Quiet] + [Quiet] == [Quiet, Quiet, Begin(n), Quiet, Quiet, Quiet];
  }

  lemma DriveLongPrefix(c: Control, p: Packet)
    requires c.phase.AwaitStart? && Legal(p) && p.long
    ensures Drive(c, [START_CHAR] + LongPrefix(p)) ==
            (Control(AwaitHeaderCheck, Sum(LongPrefix(p)), |p.data| + 1, p.n, p.kind),
             [Quiet, Quiet, Begin(p.n), Quiet, Quiet, Quiet])
  {
    var m := |p.data| + 1;
    CharRoundTrip(m / 95);
    CharRoundTrip(m % 95);
    DriveExtension(c, p.n, p.kind, ToChar(m / 95), ToChar(m % 95));
    assert m / 95 * 95 + m % 95 == m;
  }

  lemma DriveHeaderCheck(c: Control, s: seq<Byte>, d: Control, actions: seq<Action>)
    requires d.phase.AwaitHeaderCheck? && Drive(c, s) == (d, actions)
    ensures var check := ToChar(BlockCheck(d.sum));
            Drive(c, s + [check]) == (d.(phase := Body, sum := d.sum + check), actions + [Quiet])
  {
    CharRoundTrip(BlockCheck(d.sum));
    DriveStep(c, s, ToChar(BlockCheck(d.sum)), d, actions);
  }

  lemma DriveLongHeader(c: Control, p: Packet)
    requires c.phase.AwaitStart? && Legal(p) && p.long
    ensures Drive(c, [START_CHAR] + Header(p)) == (AtData(p), Opening(p))
  {
    var h := LongPrefix(p);
    var d := Control(AwaitHeaderCheck, Sum(h), |p.data| + 1, p.n, p.kind);
    DriveLongPrefix(c, p);
    DriveHeaderCheck(c, [START_CHAR] + h, d, [Quiet, Quiet, Begin(p.n), Quiet, Quiet, Quiet]);
    SumOf(h, ToChar(BlockCheck(Sum(h))));
    assert [START_CHAR] + h + [ToChar(BlockCheck(Sum(h)))] == [START_CHAR] + Header(p);
    assert Opening(p) == [Quiet, Quiet, Begin(p.n), Quiet, Quiet, Quiet] + [Quiet];
  }

  lemma DriveHeader(c: Control, p: Packet)
    requires c.phase.AwaitStart? && Legal(p)
    ensures Drive(c, [START_CHAR] + Header(p)) == (AtData(p), Opening(p))
  {
    if p.long {
      DriveLongHeader(c, p);
    } else {
      DriveType(c, |p.data| + 3, p.n, p.kind);
    }
  }

  /** What an intact frame does: one `Begin`, its data in order, one `Accept`. */
  function FrameActions(p: Packet): seq<Action>
    requires Legal(p)
  {
    Opening(p) + Payloads(p.kind, p.data) + [Quiet, Accept(p.kind, p.n)]
  }

  function AfterFrame(p: Packet): Control
    requires Legal(p)
  {
    Control(if p.kind == BREAK_TYPE then Stopped else AwaitStart, Sum(Covered(p)), 1, p.n, p.kind)
  }

  lemma DriveCovered(c: Control, p: Packet)
    requires c.phase.AwaitStart? && Legal(p)
    ensures Drive(c, [START_CHAR] + Covered(p)) ==
            (Control(Body, Sum(Covered(p)), 1, p.n, p.kind), Opening(p) + Payloads(p.kind, p.data))
  {
    var s, e := [START_CHAR] + Header(p), Control(Body, Sum(Covered(p)), 1, p.n, p.kind);
    assert Drive(c, s) == (AtData(p), Opening(p)) by { DriveHeader(c, p); }
    assert Drive(AtData(p), p.data) == (e, Payloads(p.kind, p.data)) by { DriveDataOf(p); }
    DriveOn(c, s, p.data, AtData(p), Opening(p), e, Payloads(p.kind, p.data));
    ConcatAssoc([START_CHAR], Header(p), p.data);
  }

  lemma DriveDataOf(p: Packet)
    requires Legal(p)
    ensures Drive(AtData(p), p.data) == (Control(Body, Sum(Covered(p)), 1, p.n, p.kind), Payloads(p.kind, p.data))
  {
    DriveData(AtData(p), p.data);
    SumConcat(Header(p), p.data);
  }

  lemma DriveOn(c: Control, s: seq<Byte>, t: seq<Byte>, d: Control, a: seq<Action>, e: Control, b: seq<Action>)
    requires Drive(c, s) == (d, a) && Drive(d, t) == (e, b)
    ensures Drive(c, s + t) == (e, a + b)
  {
    DriveConcat(c, s, t);
  }

  lemma DriveEnding(c: Control, s: seq<Byte>, d: Control, actions: seq<Action>)
    requires d.phase.Body? && d.length <= 1 && Drive(c, s) == (d, actions)
    ensures Drive(c, s + [ToChar(BlockCheck(d.sum)), END_CHAR]) ==
            (d.(phase := if d.kind == BREAK_TYPE then Stopped else AwaitStart),
             actions + [Quiet, Accept(d.kind, d.n)])
  {
    var check := ToChar(BlockCheck(d.sum));
    CharRoundTrip(BlockCheck(d.sum));
    DriveStep(c, s, check, d, actions);
    DriveStep(c, s + [check], END_CHAR, d.(phase := AwaitEnd), actions + [Quiet]);
    assert s + [check] + [END_CHAR] == s + [check, END_CHAR];
    assert actions + [Quiet] + [Accept(d.kind, d.n)] == actions + [Quiet, Accept(d.kind, d.n)];
  }

  /** Every legal frame is accepted, from any idle state. */
  lemma FrameAccepted(c: Control, p: Packet)
    requires c.phase.AwaitStart? && Legal(p)
    ensures Drive(c, Frame(p)) == (AfterFrame(p), FrameActions(p))
  {
    DriveCovered(c, p);
    DriveEnding(c, [START_CHAR] + Covered(p), Control(Body, Sum(Covered(p)), 1, p.n, p.kind),
                Opening(p) + Payloads(p.kind, p.data));
  }
}
