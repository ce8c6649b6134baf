/** Packet attempts that the receiver refuses.  Main result: one flipped bit
    anywhere after the sequence number of a legal frame is always refused.
 */
module KermitDamage {
  import opened Arithmetic
  import opened KermitWire

  /** Bytes the receiver skips while it waits for a start character. */
  predicate Idle(s: seq<Byte>) {
    forall i :: 0 <= i < |s| ==> s[i] != START_CHAR && s[i] != ETX_CHAR
  }

  lemma {:induction false} DriveIdle(c: Control, s: seq<Byte>)
    requires (c.phase.AwaitStart? && Idle(s)) || c.phase.Stopped?
    ensures Drive(c, s).0 == c
    ensures forall i :: 0 <= i < |s| ==> Drive(c, s).1[i].Quiet?
    decreases |s|
  {
    if s != [] {
      DriveIdle(c, s[..|s| - 1]);
    }
  }

  /** The first bytes of an attempt: start, length and sequence number. */
  function Lead(p: Packet): seq<Byte> {
    [START_CHAR, ToChar(if p.long then 0 else |p.data| + 3), ToChar(p.n)]
  }

  /** Control state once they have arrived intact. */
  function AtType(p: Packet): Control
    requires Legal(p)
  {
    Control(AwaitType, Sum(Lead(p)[1..]), (if p.long then 0 else |p.data| + 3) - 1, p.n, 0)
  }

  predicate Passive(a: Action) {
    a.Quiet? || a.Payload?
  }

  /** The receiver, in state `c`, refuses the attempt at byte `k` of `s`, and
      what follows up to the next attempt is skipped as line noise. */
  predicate RejectedAt(c: Control, s: seq<Byte>, k: nat) {
    var t := Drive(c, s).1;
    && k < |s|
    && t[k].Reject?
    && (forall j :: 0 <= j < k ==> Passive(t[j]))
    && Idle(s[k + 1..])
  }

  lemma DriveLead(c: Control, p: Packet)
    requires c.phase.AwaitStart? && Legal(p)
    ensures Drive(c, Lead(p)) == (AtType(p), [Quiet, Quiet, Begin(p.n)])
  {
    var length := if p.long then 0 else |p.data| + 3;
    DriveToType(c, length, p.n);
    assert Lead(p) == [START_CHAR] + [ToChar(length), ToChar(p.n)];
    assert Lead(p)[1..] == [ToChar(length), ToChar(p.n)];
  }

  lemma LeadOfFrame(p: Packet)
    requires Legal(p)
    ensures |Frame(p)| >= 6 && Frame(p)[..3] == Lead(p)
  {
  }

  /** A refused byte puts the machine back into the waiting state for good. */
  lemma DriveRefused(c: Control, s: seq<Byte>, k: nat)
    requires k < |s| && Idle(s[k + 1..])
    requires Advance(Drive(c, s[..k]).0, s[k]).1.Reject?
    ensures Drive(c, s).1[k].Reject?
    ensures Drive(c, s).1[..k] == Drive(c, s[..k]).1
    ensures Drive(c, s).0.phase.AwaitStart?
    ensures forall j :: k < j < |s| ==> Drive(c, s).1[j].Quiet?
  {
    var (d, actions) := Drive(c, s[..k]);
    DriveStep(c, s[..k], s[k], d, actions);
    assert s[..k] + [s[k]] == s[..k + 1];
    DriveConcat(c, s[..k + 1], s[k + 1..]);
    assert s == s[..k + 1] + s[k + 1..];
    DriveIdle(Advance(d, s[k]).0, s[k + 1..]);
  }

  lemma DrivePrefix(c: Control, s: seq<Byte>, k: nat)
    requires k <= |s|
    ensures Drive(c, s).1[..k] == Drive(c, s[..k]).1
    ensures k < |s| ==> Drive(c, s).1[k] == Advance(Drive(c, s[..k]).0, s[k]).1
  {
    DriveConcat(c, s[..k], s[k..]);
    assert s == s[..k] + s[k..];
    if k < |s| {
      DriveConcat(c, s[..k + 1], s[k + 1..]);
      assert s == s[..k + 1] + s[k + 1..];
      var (d, actions) := Drive(c, s[..k]);
      DriveStep(c, s[..k], s[k], d, actions);
      assert s[..k] + [s[k]] == s[..k + 1];
    }
  }

  lemma FrameBytes(p: Packet)
    requires Legal(p)
    ensures forall i :: 1 <= i < |Frame(p)| - 1 ==> SPACE <= Frame(p)[i]
    ensures forall i :: 1 <= i <= |Frame(p)| ==> Idle(Frame(p)[i..])
  {
    HeaderPrintable(p);
    CharRoundTrip(BlockCheck(Sum(Covered(p))));
    assert Printable(Covered(p));
  }

  lemma HeaderPrintable(p: Packet)
    requires Legal(p)
    ensures Printable(Header(p))
  {
    CharRoundTrip(if p.long then 0 else |p.data| + 3);
    CharRoundTrip(p.n);
    CharRoundTrip((|p.data| + 1) / 95 % 224);
    CharRoundTrip((|p.data| + 1) % 95);
    CharRoundTrip(BlockCheck(Sum(LongPrefix(p))));
  }

  lemma FrameActionsPassive(p: Packet)
    requires Legal(p)
    ensures |FrameActions(p)| == |Frame(p)|
    ensures forall j :: 3 <= j < |Frame(p)| - 1 ==> Passive(FrameActions(p)[j])
    ensures FrameActions(p)[|Frame(p)| - 1].Accept?
  {
  }

  /** Inside a byte string that ends by being accepted, the machine is neither
      waiting nor stopped. */
  lemma MidRun(c: Control, f: seq<Byte>, i: nat)
    requires 3 <= i < |f| - 1 && Idle(f[i..])
    requires Drive(c, f).1[|f| - 1].Accept?
    requires forall j :: 3 <= j < |f| - 1 ==> Passive(Drive(c, f).1[j])
    ensures var d := Drive(c, f[..i]).0;
            !d.phase.AwaitStart? && !d.phase.Stopped? && !d.phase.AwaitEnd?
    ensures forall j :: 3 <= j < i ==> Passive(Drive(c, f[..i]).1[j])
  {
    var (d, actions) := Drive(c, f[..i]);
    DrivePrefix(c, f, i);
    assert forall j :: 3 <= j < i ==> actions[j] == Drive(c, f).1[..i][j];
    if d.phase.AwaitStart? || d.phase.Stopped? {
      DriveConcat(c, f[..i], f[i..]);
      assert f == f[..i] + f[i..];
      assert Drive(c, f).1[|f| - 1] == Drive(d, f[i..]).1[|f| - 1 - i];
      DriveIdle(d, f[i..]);
    }
  }

  lemma MidFrame(c: Control, p: Packet, i: nat)
    requires c.phase.AwaitStart? && Legal(p) && 3 <= i < |Frame(p)| - 1
    ensures var d := Drive(c, Frame(p)[..i]).0;
            !d.phase.AwaitStart? && !d.phase.Stopped? && !d.phase.AwaitEnd?
    ensures forall j :: 3 <= j < i ==> Passive(Drive(c, Frame(p)[..i]).1[j])
  {
    FrameAccepted(c, p);
    FrameBytes(p);
    FrameActionsPassive(p);
    MidRun(c, Frame(p), i);
  }

  // ----- one flipped bit

  /** `s` is the frame of `p` with one bit flipped in byte `i`, which lies after
      the sequence number. */
  ghost predicate OneBitDamage(p: Packet, i: nat, s: seq<Byte>)
    requires Legal(p)
  {
    && 3 <= i < |Frame(p)| == |s|
    && OneBitApart(Frame(p)[i], s[i])
    && s == Frame(p)[i := s[i]]
  }

  /** How a refusal seen from the start character looks once the lead is cut off. */
  lemma RejectedAfterLead(c: Control, p: Packet, s: seq<Byte>, k: nat)
    requires c.phase.AwaitStart? && Legal(p)
    requires 3 <= k < |s| && s[..3] == Lead(p) && Idle(s[k + 1..])
    requires forall j :: 3 <= j < k ==> Passive(Drive(c, s[..k]).1[j])
    requires Advance(Drive(c, s[..k]).0, s[k]).1.Reject?
    ensures RejectedAt(AtType(p), s[3..], k - 3)
  {
    DriveRefused(c, s, k);
    DriveLead(c, p);
    DriveConcat(c, s[..3], s[3..]);
    assert s == s[..3] + s[3..];
    var t, u := Drive(c, s).1, Drive(AtType(p), s[3..]).1;
    assert t == [Quiet, Quiet, Begin(p.n)] + u;
    assert forall j :: 0 <= j < |u| ==> u[j] == t[j + 3];
    assert forall j :: 0 <= j < k ==> t[j] == t[..k][j];
    assert s[3..][k - 3 + 1..] == s[k + 1..];
  }

  lemma IdleAround(p: Packet, i: nat, s: seq<Byte>, k: nat)
    requires Legal(p) && OneBitDamage(p, i, s) && i <= k < |s|
    ensures Idle(s[k + 1..]) && s[..3] == Lead(p) && s[..i] == Frame(p)[..i]
  {
    FrameBytes(p);
    LeadOfFrame(p);
    assert s[k + 1..] == Frame(p)[k + 1..];
  }

  /** The flip turns a byte into a control character: refused on the spot. */
  lemma FlipBelowSpace(p: Packet, i: nat, s: seq<Byte>)
    requires Legal(p) && OneBitDamage(p, i, s) && i < |s| - 1 && s[i] < SPACE
    ensures RejectedAt(AtType(p), s[3..], i - 3)
  {
    IdleAround(p, i, s, i);
    MidFrame(POWER_ON, p, i);
    RejectedAfterLead(POWER_ON, p, s, i);
  }

  lemma FlipEnd(p: Packet, s: seq<Byte>)
    requires Legal(p) && OneBitDamage(p, |Frame(p)| - 1, s)
    ensures RejectedAt(AtType(p), s[3..], |s| - 4)
  {
    var i := |s| - 1;
    IdleAround(p, i, s, i);
    DriveToEnd(p, s[..i]);
    FrameActionsPassive(p);
    RejectedAfterLead(POWER_ON, p, s, i);
  }

  /** A frame up to its block check brings the receiver to the end character. */
  lemma DriveToEnd(p: Packet, s: seq<Byte>)
    requires Legal(p) && s == Frame(p)[..|Frame(p)| - 1]
    ensures Drive(POWER_ON, s) == (Control(AwaitEnd, Sum(Covered(p)), 1, p.n, p.kind), Opening(p) + Payloads(p.kind, p.data) + [Quiet])
  {
    var d := Control(Body, Sum(Covered(p)), 1, p.n, p.kind);
    var open := [START_CHAR] + Covered(p);
    var check := ToChar(BlockCheck(d.sum));
    DriveCovered(POWER_ON, p);
    CharRoundTrip(BlockCheck(d.sum));
    DriveStep(POWER_ON, open, check, d, Opening(p) + Payloads(p.kind, p.data));
    assert s == open + [check];
  }

  /** A frame body followed by the wrong block check is refused at the check. */
  lemma WrongCheck(p: Packet, q: Packet, s: seq<Byte>)
    requires Legal(p) && Legal(q) && Lead(p) == Lead(q)
    requires |s| == |Covered(q)| + 3 && s[..|s| - 2] == [START_CHAR] + Covered(q)
    requires s[|s| - 2] != ToChar(BlockCheck(Sum(Covered(q)))) && SPACE <= s[|s| - 2]
    requires s[|s| - 1] == END_CHAR
    ensures RejectedAt(AtType(p), s[3..], |s| - 5)
  {
    var k := |s| - 2;
    DriveCovered(POWER_ON, q);
    assert s[..3] == s[..k][..3] == Lead(q) by {
      LeadOfFrame(q);
      assert Frame(q)[..k] == [START_CHAR] + Covered(q);
    }
    RejectedAfterLead(POWER_ON, p, s, k);
  }

  /** The flip hits the block check itself, or a byte that only it covers. */
  lemma FlipUnderCheck(p: Packet, i: nat, s: seq<Byte>)
    requires Legal(p) && OneBitDamage(p, i, s) && SPACE <= s[i]
    requires (if p.long then 7 else 3) <= i < |s| - 1
    ensures RejectedAt(AtType(p), s[3..], |s| - 5)
  {
    if i == |s| - 2 {
      CharRoundTrip(BlockCheck(Sum(Covered(p))));
      assert s[..i] == [START_CHAR] + Covered(p);
      WrongCheck(p, p, s);
    } else {
      FlipCovered(p, i, s);
    }
  }

  /** The frame with the byte at `i`, under the block check, replaced. */
  lemma FlippedPacket(p: Packet, i: nat, b: Byte) returns (q: Packet)
    requires Legal(p) && SPACE <= b && (if p.long then 7 else 3) <= i < |Frame(p)| - 2
    ensures Legal(q) && Lead(q) == Lead(p) && Covered(q) == Covered(p)[i - 1 := b]
  {
    var h := |Header(p)|;
    q := if i == 3 && !p.long then p.(kind := b) else p.(data := p.data[i - 1 - h := b]);
  }

  lemma FlipCovered(p: Packet, i: nat, s: seq<Byte>)
    requires Legal(p) && OneBitDamage(p, i, s) && SPACE <= s[i]
    requires (if p.long then 7 else 3) <= i < |s| - 2
    ensures RejectedAt(AtType(p), s[3..], |s| - 5)
  {
    var q := FlippedPacket(p, i, s[i]);
    CheckDetectsOneBit(Covered(p), i - 1, s[i]);
    CharRoundTrip(BlockCheck(Sum(Covered(p))));
    CharRoundTrip(BlockCheck(Sum(Covered(q))));
    assert s[..|s| - 2] == [START_CHAR] + Covered(q);
    WrongCheck(p, q, s);
  }

  /** The flip hits the part of a long header that the header check covers, or
      the header check. */
  lemma FlipUnderHeaderCheck(p: Packet, i: nat, s: seq<Byte>)
    requires Legal(p) && OneBitDamage(p, i, s) && SPACE <= s[i]
    requires p.long && i < 7
    ensures RejectedAt(AtType(p), s[3..], 3)
  {
    assert s[..3] == Lead(p) && Idle(s[7..]) by { IdleAround(p, i, s, 6); }
    assert SPACE <= s[3] && SPACE <= s[4] && SPACE <= s[5] by { FrameBytes(p); }
    WrongHeaderCheck(p, i, s, [ToChar(0), ToChar(p.n), s[3], s[4], s[5]]);
    HeaderCheckRefused(p, s);
  }

  lemma HeaderCheckRefused(p: Packet, s: seq<Byte>)
    requires Legal(p) && p.long && |s| > 6 && s[..3] == Lead(p) && Idle(s[7..])
    requires SPACE <= s[3] && SPACE <= s[4] && SPACE <= s[5]
    requires s[6] != ToChar(BlockCheck(Sum([ToChar(0), ToChar(p.n), s[3], s[4], s[5]])))
    ensures RejectedAt(AtType(p), s[3..], 3)
  {
    assert s[..6] == [START_CHAR] + [ToChar(0), ToChar(p.n), s[3], s[4], s[5]] by { assert s[..6] == s[..3] + s[3..6]; }
    DriveExtension(POWER_ON, p.n, s[3], s[4], s[5]);
    RejectedAfterLead(POWER_ON, p, s, 6);
  }

  lemma WrongHeaderCheck(p: Packet, i: nat, s: seq<Byte>, g: seq<Byte>)
    requires Legal(p) && OneBitDamage(p, i, s) && p.long && i < 7
    requires g == [ToChar(0), ToChar(p.n), s[3], s[4], s[5]]
    ensures s[6] != ToChar(BlockCheck(Sum(g)))
  {
    var f, h := Frame(p), LongPrefix(p);
    assert f[1..6] == h && f[6] == ToChar(BlockCheck(Sum(h)));
    CharRoundTrip(BlockCheck(Sum(h)));
    CharRoundTrip(BlockCheck(Sum(g)));
    if i < 6 {
      assert g == h[i - 1 := s[i]];
      CheckDetectsOneBit(h, i - 1, s[i]);
    } else {
      assert g == h;
    }
  }

  /** Any single flipped bit after the sequence number, in the type, the extended
      length, the header check, the data, the block check or the end character,
      is refused. */
  lemma OneBitRejected(p: Packet, i: nat, s: seq<Byte>)
    requires Legal(p) && OneBitDamage(p, i, s)
    ensures exists k: nat :: RejectedAt(AtType(p), s[3..], k)
  {
    if i == |s| - 1 {
      FlipEnd(p, s);
    } else if s[i] < SPACE {
      FlipBelowSpace(p, i, s);
    } else if p.long && i < 7 {
      FlipUnderHeaderCheck(p, i, s);
    } else {
      FlipUnderCheck(p, i, s);
    }
  }
}
