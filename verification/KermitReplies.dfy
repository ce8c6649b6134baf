/** What the receiver answers, as the sender reads it off the line, and a sender
    that moves on only when it has read the acknowledgement of its packet.
 */
module KermitReplies {
  import opened Arithmetic
  import opened KermitWire
  import opened KermitDamage
  import opened KermitData
  import opened KermitReceiver
  import opened KermitDelivery
  import opened KermitSession

  // ----- reading an answer

  /** Every waiting peer takes `body`, completed by an end of line, for one packet
      of the type and number given, and refuses none of its bytes. */
  ghost predicate Understood(body: seq<Byte>, kind: Byte, n: Byte) {
    forall c: Control :: c.phase.AwaitStart? ==>
      var t := Drive(c, body + [END_CHAR]).1;
      && t[|body|] == Accept(kind, n)
      && forall i :: 0 <= i < |body| ==> !t[i].Reject? && !t[i].Accept?
  }

  /** A NUL ends the string and is not sent. */
  function EndOfLine(eol: Byte): seq<Byte> {
    if eol == 0 then [] else [eol]
  }

  /** A peer that asked for `count` padding characters `pad` and for the end of line
      `eol` (none if it is NUL) reads `answer` as a packet of this type and number. */
  ghost predicate ReadAs(answer: seq<Byte>, count: nat, pad: Byte, eol: Byte, kind: Byte, n: Byte) {
    var end := EndOfLine(eol);
    && |answer| >= count + |end|
    && answer[..count] == Repeat(pad, count)
    && answer[|answer| - |end|..] == end
    && Understood(answer[count..|answer| - |end|], kind, n)
  }

  /** Between `rx` and `rx'` exactly one packet has gone out, of this type and number. */
  ghost predicate Answered(rx: Rx, rx': Rx, kind: Byte, n: Byte) {
    rx.sent <= rx'.sent && ReadAs(rx'.sent[|rx.sent|..], rx'.padCount, rx'.padChar, rx'.eol, kind, n)
  }

  /** An answer has one meaning. */
  lemma OneMeaning(rx: Rx, rx': Rx, kind: Byte, n: Byte, kind': Byte, n': Byte)
    requires Answered(rx, rx', kind, n) && Answered(rx, rx', kind', n')
    ensures kind == kind' && n == n'
  {
    var answer, end := rx'.sent[|rx.sent|..], EndOfLine(rx'.eol);
    var body := answer[rx'.padCount..|answer| - |end|];
    var t := Drive(POWER_ON, body + [END_CHAR]).1;
    assert t[|body|] == Accept(kind, n) && t[|body|] == Accept(kind', n');
  }

  lemma ReplyUnderstood(kind: Byte, n: Byte, parms: seq<Byte>, body: seq<Byte>)
    requires Legal(Packet(n, kind, parms, false)) && body + [END_CHAR] == ReplyPacket(END_CHAR, kind, n, parms)
    ensures Understood(body, kind, n)
  {
    var p := Packet(n, kind, parms, false);
    assert Frame(p) == body + [END_CHAR];
    forall c: Control | c.phase.AwaitStart?
      ensures var t := Drive(c, body + [END_CHAR]).1;
              t[|body|] == Accept(kind, n) && forall i :: 0 <= i < |body| ==> !t[i].Reject? && !t[i].Accept?
    {
      FrameAccepted(c, p);
    }
  }

  lemma CutOut(sent: seq<Byte>, pad: seq<Byte>, body: seq<Byte>, end: seq<Byte>)
    ensures var answer := (sent + (pad + (body + end)))[|sent|..];
            && |answer| == |pad| + |body| + |end|
            && answer[..|pad|] == pad && answer[|answer| - |end|..] == end
            && answer[|pad|..|answer| - |end|] == body
  {
  }

  lemma ReadBody(rx: Rx, rx': Rx, kind: Byte, n: Byte, body: seq<Byte>)
    requires rx'.sent == rx.sent + (Repeat(rx'.padChar, rx'.padCount) + (body + EndOfLine(rx'.eol)))
    requires Understood(body, kind, n)
    ensures Answered(rx, rx', kind, n)
  {
    var end := EndOfLine(rx'.eol);
    var answer := rx'.sent[|rx.sent|..];
    CutOut(rx.sent, Repeat(rx'.padChar, rx'.padCount), body, end);
    assert rx.sent <= rx'.sent;
    PartsRead(answer, rx'.padCount, rx'.padChar, rx'.eol, kind, n, body);
  }

  lemma PartsRead(answer: seq<Byte>, count: nat, pad: Byte, eol: Byte, kind: Byte, n: Byte, body: seq<Byte>)
    requires |answer| >= count + |EndOfLine(eol)| && answer[count..|answer| - |EndOfLine(eol)|] == body
    requires answer[..count] == Repeat(pad, count) && answer[|answer| - |EndOfLine(eol)|..] == EndOfLine(eol)
    requires Understood(body, kind, n)
    ensures ReadAs(answer, count, pad, eol, kind, n)
  {
  }

  lemma ReplyParts(rx: Rx, kind: Byte, n: Byte, parms: seq<Byte>)
    ensures Reply(rx, kind, n, parms) == Repeat(rx.padChar, rx.padCount) + (BodyOf(kind, n, parms) + EndOfLine(rx.eol))
  {
  }

  /** What is said is read as it is meant. */
  lemma SaidIsRead(rx: Rx, kind: Byte, n: Byte, parms: seq<Byte>)
    requires Legal(Packet(n, kind, parms, false))
    ensures Answered(rx, Say(rx, kind, n, parms), kind, n)
  {
    ReplyUnderstood(kind, n, parms, BodyOf(kind, n, parms));
    ReplyParts(rx, kind, n, parms);
    ReadBody(rx, Say(rx, kind, n, parms), kind, n, BodyOf(kind, n, parms));
  }

  function BodyOf(kind: Byte, n: Byte, parms: seq<Byte>): seq<Byte> {
    var covered := [ToChar(|parms| + 3), ToChar(n), kind] + parms;
    [START_CHAR] + covered + [ToChar(BlockCheck(Sum(covered)))]
  }

  // ----- what one event is answered

  /** Actions that send nothing. */
  predicate Unheard(a: Action) {
    a.Quiet? || a.Payload? || a.Begin?
  }

  lemma {:induction false} UnheardSendsNothing(rx: Rx, t: seq<Action>)
    requires forall i :: 0 <= i < |t| ==> Unheard(t[i])
    ensures var rx' := PerformAll(rx, t);
            rx'.sent == rx.sent && (rx'.padCount, rx'.padChar, rx'.eol) == (rx.padCount, rx.padChar, rx.eol)
    decreases |t|
  {
    if t != [] { UnheardSendsNothing(rx, t[..|t| - 1]); }
  }

  lemma {:induction false} QuietChangesNothing(rx: Rx, t: seq<Action>)
    requires forall i :: 0 <= i < |t| ==> t[i].Quiet?
    ensures PerformAll(rx, t) == rx
    decreases |t|
  {
    if t != [] { QuietChangesNothing(rx, t[..|t| - 1]); }
  }

  lemma PerformOne(rx: Rx, a: Action)
    ensures PerformAll(rx, [a]) == Perform(rx, a)
  {
    assert [a][..0] == [];
    assert PerformAll(rx, []) == rx;
  }

  /** One speaking action between silent ones. */
  lemma SpeaksOnce(rx: Rx, t: seq<Action>, k: nat)
    requires k < |t| && (forall i :: 0 <= i < k ==> Unheard(t[i])) && (forall i :: k < i < |t| ==> t[i].Quiet?)
    ensures PerformAll(rx, t) == Perform(PerformAll(rx, t[..k]), t[k])
    ensures PerformAll(rx, t[..k]).sent == rx.sent
  {
    assert t == t[..k] + ([t[k]] + t[k + 1..]);
    var rx1 := PerformAll(rx, t[..k]);
    UnheardSendsNothing(rx, t[..k]);
    PerformConcat(rx, t[..k], [t[k]] + t[k + 1..]);
    PerformConcat(rx1, [t[k]], t[k + 1..]);
    PerformOne(rx1, t[k]);
    QuietChangesNothing(Perform(rx1, t[k]), t[k + 1..]);
  }

  lemma OfferedLegal(count: nat, n: Byte)
    requires n < 64
    ensures Legal(Packet(n, ACK_TYPE, Offered(count), false))
  {
    assert Printable(OFFER) && Printable(CAPABILITIES);
  }

  /** A refused attempt is answered by a negative acknowledgement. */
  lemma RefusalAnswered(rx: Rx, t: seq<Action>, k: nat, n: Byte)
    requires k < |t| && (forall i :: 0 <= i < k ==> Unheard(t[i])) && (forall i :: k < i < |t| ==> t[i].Quiet?)
    requires t[k] == Reject(n) && n < 64
    ensures Answered(rx, PerformAll(rx, t), 0x4E, n) && PerformAll(rx, t).parms == []
  {
    SpeaksOnce(rx, t, k);
    var rx1 := PerformAll(rx, t[..k]);
    SaidIsRead(rx1.(cur := rx1.saved), NACK_TYPE, n, []);
  }

  /** A complete attempt is answered by an acknowledgement. */
  lemma AcceptanceAnswered(rx: Rx, t: seq<Action>, k: nat, kind: Byte, n: Byte)
    requires k + 1 == |t| && (forall i :: 0 <= i < k ==> Unheard(t[i])) && t[k] == Accept(kind, n) && n < 64
    ensures Answered(rx, PerformAll(rx, t), 0x59, n) && PerformAll(rx, t).parms == []
  {
    SpeaksOnce(rx, t, k);
    var rx1 := PerformAll(rx, t[..k]);
    if kind == SEND_TYPE {
      var count := Considered(|rx1.parms|);
      OfferedLegal(count, n);
      SaidIsRead(Negotiate(rx1), ACK_TYPE, n, Offered(count));
    } else {
      SaidIsRead(rx1, ACK_TYPE, n, []);
    }
  }

  /** The answer to an event: none to noise, a negative acknowledgement of the last
      number seen to a broken length or sequence byte, one of the packet's number
      to a damaged packet, an acknowledgement of it to an intact one. */
  ghost predicate RightAnswer(ps: seq<Packet>, e: Event, last: Byte, rx: Rx, rx': Rx)
    requires e.Damaged? || e.Intact? ==> e.i < |ps|
  {
    match e
    case Noise(_) => rx'.sent == rx.sent
    case BadLead(_) => Answered(rx, rx', 0x4E, last)
    case Damaged(i, _) => Answered(rx, rx', 0x4E, ps[i].n)
    case Intact(i) => Answered(rx, rx', 0x59, ps[i].n)
  }

  /** The receiver's answer to every event, from any idle state. */
  lemma EventAnswered(ps: seq<Packet>, c: Control, rx: Rx, e: Event)
    requires forall i :: 0 <= i < |ps| ==> Legal(ps[i])
    requires Plausible(ps, e) && c.phase.AwaitStart? && c.n < 64
    ensures RightAnswer(ps, e, c.n, rx, PerformAll(rx, Drive(c, Arriving(ps, e)).1))
  {
    match e
    case Noise(s) =>
      DriveIdle(c, s);
      QuietChangesNothing(rx, Drive(c, s).1);
    case BadLead(s) => BadLeadAnswered(c, rx, s);
    case Damaged(i, tail) =>
      var k: nat :| RejectedAt(AtType(ps[i]), tail, k);
      DamagedAnswered(c, rx, ps[i], tail, k);
    case Intact(i) => IntactAnswered(c, rx, ps[i]);
  }

  /** The number in the receiver changes only where an attempt begins. */
  lemma {:induction false} NumberKept(c: Control, s: seq<Byte>)
    requires forall i :: 0 <= i < |s| ==> !Drive(c, s).1[i].Begin?
    ensures Drive(c, s).0.n == c.n
    decreases |s|
  {
    if s != [] {
      var init := s[..|s| - 1];
      DrivePrefix(c, s, |init|);
      assert forall i :: 0 <= i < |init| ==> Drive(c, init).1[i] == Drive(c, s).1[..|init|][i];
      NumberKept(c, init);
    }
  }

  /** A refusal bears the number the attempt stood at. */
  lemma RefusedNumber(c: Control, s: seq<Byte>, k: nat)
    requires k < |s| && Drive(c, s).1[k].Reject?
    requires forall i :: 0 <= i < k ==> !Drive(c, s).1[i].Begin?
    ensures Drive(c, s).1[k] == Reject(c.n)
  {
    DrivePrefix(c, s, k);
    assert forall i :: 0 <= i < k ==> Drive(c, s[..k]).1[i] == Drive(c, s).1[..k][i];
    NumberKept(c, s[..k]);
  }

  lemma BadLeadAnswered(c: Control, rx: Rx, s: seq<Byte>)
    requires c.phase.AwaitStart? && c.n < 64
    requires (|s| >= 1 && s[0] < SPACE && Idle(s[1..])) ||
             (|s| >= 2 && SPACE <= s[0] && s[1] < SPACE && Idle(s[2..]))
    ensures Answered(rx, PerformAll(rx, Drive(c, [START_CHAR] + s).1), 0x4E, c.n)
    ensures Drive(c, [START_CHAR] + s).0.n == c.n
  {
    var k := if s[0] < SPACE then 1 else 2;
    var f := [START_CHAR] + s;
    DriveBadLead(c, f, k);
    assert f[k + 1..] == s[k..];
    DriveRefused(c, f, k);
    var t := Drive(c, f).1;
    assert forall j :: 0 <= j < k ==> t[j] == t[..k][j];
    RefusedNumber(c, f, k);
    NumberKept(c, f);
    RefusalAnswered(rx, t, k, c.n);
  }

  lemma DamagedAnswered(c: Control, rx: Rx, p: Packet, tail: seq<Byte>, k: nat)
    requires c.phase.AwaitStart? && Legal(p) && RejectedAt(AtType(p), tail, k)
    ensures Answered(rx, PerformAll(rx, Drive(c, Lead(p) + tail).1), 0x4E, p.n)
    ensures Drive(c, Lead(p) + tail).0.n == p.n
  {
    DriveLead(c, p);
    DriveConcat(c, Lead(p), tail);
    var d := AtType(p);
    var u := Drive(d, tail).1;
    assert u[k] == Reject(p.n) by { RefusedNumber(d, tail, k); }
    assert (forall j :: k < j < |u| ==> u[j].Quiet?) by { AfterRefusal(d, tail, k); }
    NumberKept(d, tail);
    RefusalAnswered(rx, [Quiet, Quiet, Begin(p.n)] + u, 3 + k, p.n);
  }

  lemma AfterRefusal(c: Control, s: seq<Byte>, k: nat)
    requires RejectedAt(c, s, k)
    ensures forall j :: k < j < |s| ==> Drive(c, s).1[j].Quiet?
  {
    DrivePrefix(c, s, k);
    DriveRefused(c, s, k);
  }

  lemma IntactAnswered(c: Control, rx: Rx, p: Packet)
    requires c.phase.AwaitStart? && Legal(p)
    ensures Answered(rx, PerformAll(rx, Drive(c, Frame(p)).1), 0x59, p.n)
    ensures Drive(c, Frame(p)).0.n == p.n
  {
    FrameAccepted(c, p);
    var t := FrameActions(p);
    assert t[|t| - 1] == Accept(p.kind, p.n);
    AcceptanceAnswered(rx, t, |t| - 1, p.kind, p.n);
  }

  // ----- the answers of a whole run

  /** The receiver after a run. */
  ghost function After(ps: seq<Packet>, events: seq<Event>, rx0: Rx): Rx
    requires LegalRun(ps, events)
  {
    Absorb(rx0, Line(ps, events))
  }

  /** The number of the last attempt whose length and sequence byte came in. */
  ghost function LastNumber(ps: seq<Packet>, events: seq<Event>): Byte
    requires LegalRun(ps, events)
    decreases |events|
  {
    if events == [] then 0
    else
      match events[|events| - 1]
      case Damaged(i, _) => ps[i].n
      case Intact(i) => ps[i].n
      case _ => LastNumber(ps, events[..|events| - 1])
  }

  lemma {:induction false} LastNumberHeld(ps: seq<Packet>, events: seq<Event>)
    requires LegalRun(ps, events)
    ensures Drive(POWER_ON, Line(ps, events)).0.n == LastNumber(ps, events) < 64
    decreases |events|
  {
    if events != [] {
      var init, e := events[..|events| - 1], events[|events| - 1];
      assert LegalRun(ps, init);
      LastNumberHeld(ps, init);
      var c := Drive(POWER_ON, Line(ps, init)).0;
      assert c.phase.AwaitStart? by { RunAccount(ps, init); }
      assert Drive(POWER_ON, Line(ps, events)).0 == Drive(c, Arriving(ps, e)).0 by {
        DriveConcat(POWER_ON, Line(ps, init), Arriving(ps, e));
      }
      NumberAfter(ps, c, e);
    }
  }

  lemma NumberAfter(ps: seq<Packet>, c: Control, e: Event)
    requires forall i :: 0 <= i < |ps| ==> Legal(ps[i])
    requires Plausible(ps, e) && c.phase.AwaitStart? && c.n < 64
    ensures Drive(c, Arriving(ps, e)).0.n == if e.Damaged? || e.Intact? then ps[e.i].n else c.n
  {
    var rx := Fresh(0, map[], []);
    match e
    case Noise(s) => DriveIdle(c, s);
    case BadLead(s) => BadLeadAnswered(c, rx, s);
    case Damaged(i, tail) =>
      var k: nat :| RejectedAt(AtType(ps[i]), tail, k);
      DamagedAnswered(c, rx, ps[i], tail, k);
    case Intact(i) => IntactAnswered(c, rx, ps[i]);
  }

  /** In every run, whatever was sent before, each event gets its right answer. */
  lemma RunAnswered(ps: seq<Packet>, init: seq<Event>, e: Event, rx0: Rx)
    requires LegalRun(ps, init + [e])
    ensures LegalRun(ps, init)
    ensures RightAnswer(ps, e, LastNumber(ps, init), After(ps, init, rx0), After(ps, init + [e], rx0))
  {
    var events := init + [e];
    assert events[..|events| - 1] == init && events[|events| - 1] == e;
    assert forall i :: 0 <= i < |init| ==> init[i] == events[i];
    RunAccount(ps, init);
    LastNumberHeld(ps, init);
    var (c, actions) := Drive(POWER_ON, Line(ps, init));
    assert c.phase.AwaitStart? by { assert init != [] ==> !Stops(ps, events[|init| - 1]); }
    DriveConcat(POWER_ON, Line(ps, init), Arriving(ps, e));
    PerformConcat(rx0, actions, Drive(c, Arriving(ps, e)).1);
    EventAnswered(ps, c, After(ps, init, rx0), e);
  }

  // ----- a sender that listens

  /** Whether the sender has read, between `rx` and `rx'`, an acknowledgement of
      number `n`. */
  ghost predicate Acknowledged(rx: Rx, rx': Rx, n: Byte) {
    Answered(rx, rx', 0x59, n)
  }

  /** The sender's progress by what it reads: it repeats the packet it is at, or
      goes on to the next one once an acknowledgement has been read. */
  ghost function Heed(ps: seq<Packet>, st: Sender, e: Event, rx: Rx, rx': Rx): Sender
    requires e.Damaged? || e.Intact? ==> e.i < |ps|
  {
    match e
    case Noise(_) => st
    case BadLead(_) => st.(sure := 0 <= st.at < |ps| && Acknowledged(rx, rx', ps[st.at].n))
    case Damaged(i, _) => Attempt(ps, st, i, Acknowledged(rx, rx', ps[i].n))
    case Intact(i) => Attempt(ps, st, i, Acknowledged(rx, rx', ps[i].n))
  }

  ghost function Listen(ps: seq<Packet>, events: seq<Event>, rx0: Rx): Sender
    requires LegalRun(ps, events)
    decreases |events|
  {
    if events == [] then SETTING_OUT
    else
      var init := events[..|events| - 1];
      Heed(ps, Listen(ps, init, rx0), events[|events| - 1], After(ps, init, rx0), After(ps, events, rx0))
  }

  /** What the sender reads tells it exactly what the receiver has accepted. */
  lemma {:induction false} ListenIsTrack(ps: seq<Packet>, events: seq<Event>, rx0: Rx)
    requires LegalRun(ps, events)
    ensures Listen(ps, events, rx0) == Track(ps, events)
    decreases |events|
  {
    if events != [] {
      var init, e := events[..|events| - 1], events[|events| - 1];
      assert events == init + [e];
      ListenIsTrack(ps, init, rx0);
      RunAnswered(ps, init, e, rx0);
      HeedIsProceed(ps, Track(ps, init), e, LastNumber(ps, init), After(ps, init, rx0), After(ps, events, rx0));
    }
  }

  lemma HeedIsProceed(ps: seq<Packet>, st: Sender, e: Event, last: Byte, rx: Rx, rx': Rx)
    requires (e.Damaged? || e.Intact? ==> e.i < |ps|) && RightAnswer(ps, e, last, rx, rx')
    ensures Heed(ps, st, e, rx, rx') == Proceed(ps, st, e)
  {
    match e
    case Noise(_) =>
    case BadLead(_) =>
      if 0 <= st.at < |ps| && Acknowledged(rx, rx', ps[st.at].n) { OneMeaning(rx, rx', 0x4E, last, 0x59, ps[st.at].n); }
    case Damaged(i, _) =>
      if Acknowledged(rx, rx', ps[i].n) { OneMeaning(rx, rx', 0x4E, ps[i].n, 0x59, ps[i].n); }
    case Intact(_) =>
  }

  /** A run of a sender that moves on only when it has read an acknowledgement of
      its packet, up to the break packet arriving. */
  ghost predicate HeedfulRun(ps: seq<Packet>, events: seq<Event>, rx0: Rx) {
    && LegalRun(ps, events) && Numbered(ps) && Listen(ps, events, rx0).ok
    && events != [] && ps != []
    && events[|events| - 1] == Intact(|ps| - 1)
    && ps[|ps| - 1].kind == BREAK_TYPE
  }

  /** Delivery to a sender that knows nothing but the answers: every data packet
      arrives once and in order if and only if, each time the sender moved on
      from one, the latest answer was its acknowledgement. */
  lemma HeedfulDeliveryIff(ps: seq<Packet>, events: seq<Event>, rx0: Rx)
    requires HeedfulRun(ps, events, rx0)
    ensures Completed(ps, events)
    ensures Delivered(ps, events) == Chunks(ps, |ps|) <==> Listen(ps, events, rx0).kept
  {
    ListenIsTrack(ps, events, rx0);
    DeliveredExactlyOnceIff(ps, events);
  }

  /** The sender repeats a packet until the latest answer is its acknowledgement;
      length and sequence bytes arrive intact. */
  ghost predicate AwaitsAnswer(ps: seq<Packet>, events: seq<Event>, rx0: Rx)
    requires LegalRun(ps, events)
    decreases |events|
  {
    events == [] ||
    var init := events[..|events| - 1];
    var st := Listen(ps, init, rx0);
    AwaitsAnswer(ps, init, rx0) &&
    match events[|events| - 1]
    case Noise(_) => true
    case BadLead(_) => false
    case Damaged(i, _) => Next((st.at, st.sure), i)
    case Intact(i) => Next((st.at, st.sure), i)
  }

  lemma {:induction false} AwaitingIsPatient(ps: seq<Packet>, events: seq<Event>, rx0: Rx)
    requires LegalRun(ps, events) && AwaitsAnswer(ps, events, rx0)
    ensures Patient(events)
    decreases |events|
  {
    if events != [] {
      var init := events[..|events| - 1];
      AwaitingIsPatient(ps, init, rx0);
      ListenIsTrack(ps, init, rx0);
      PatientTrack(ps, init);
    }
  }

  /** Such a sender loses nothing, whatever the line does. */
  lemma AwaitingSenderLosesNothing(ps: seq<Packet>, events: seq<Event>, rx0: Rx)
    requires LegalRun(ps, events) && Numbered(ps) && AwaitsAnswer(ps, events, rx0)
    requires events != [] && ps != [] && events[|events| - 1] == Intact(|ps| - 1) && ps[|ps| - 1].kind == BREAK_TYPE
    ensures HeedfulRun(ps, events, rx0) && Listen(ps, events, rx0).kept
    ensures Delivered(ps, events) == Chunks(ps, |ps|)
  {
    AwaitingIsPatient(ps, events, rx0);
    PatientSenderLosesNothing(ps, events);
    ListenIsTrack(ps, events, rx0);
  }

  // ----- what the send-init packet settles

  lemma {:induction false} ParmsCollected(rx: Rx, data: seq<Byte>)
    requires rx.parms == []
    ensures PerformAll(rx, Payloads(SEND_TYPE, data)) == rx.(parms := ParmsKept(data))
    decreases |data|
  {
    if data != [] {
      var init, b := data[..|data| - 1], data[|data| - 1];
      assert data == init + [b];
      assert Payloads(SEND_TYPE, data) == Payloads(SEND_TYPE, init) + [Payload(SEND_TYPE, b)];
      ParmsCollected(rx, init);
      PerformConcat(rx, Payloads(SEND_TYPE, init), [Payload(SEND_TYPE, b)]);
      PerformOne(rx.(parms := ParmsKept(init)), Payload(SEND_TYPE, b));
      KeptStep(init, b);
    }
  }

  lemma KeptStep(init: seq<Byte>, b: Byte)
    ensures ParmsKept(init + [b]) == if |ParmsKept(init)| < SEND_DATA_SIZE - 1 then ParmsKept(init) + [b] else ParmsKept(init)
  {
  }

  /** The header of a frame leaves the settings and the parameters alone. */
  lemma OpeningKeeps(rx: Rx, p: Packet)
    requires Legal(p)
    ensures PerformAll(rx, Opening(p)).parms == rx.parms
  {
    var t := Opening(p);
    SplitOpening(t, p.n);
    PerformConcat(rx, t[..2], [t[2]] + t[3..]);
    QuietChangesNothing(rx, t[..2]);
    PerformConcat(rx, [t[2]], t[3..]);
    PerformOne(rx, t[2]);
    QuietChangesNothing(Perform(rx, t[2]), t[3..]);
  }

  lemma SplitOpening(t: seq<Action>, n: Byte)
    requires |t| > 3
    ensures t == t[..2] + ([t[2]] + t[3..])
  {
  }

  /** The first parameters of a send-init packet, as many as there are, ask for
      this padding, end of line and quote character. */
  predicate Asks(data: seq<Byte>, count: Byte, pad: Byte, eol: Byte, quote: Byte) {
    && (|data| >= 3 ==> data[2] == ToChar(count))
    && (|data| >= 4 ==> IsControl(pad) && data[3] == Uncontrol(pad))
    && (|data| >= 5 ==> data[4] == ToChar(eol))
    && (|data| >= 6 ==> data[5] == quote)
  }

  /** The receiver does as the send-init packet asks, and keeps to the defaults in
      what it leaves open. */
  lemma RequestHonoured(c: Control, rx: Rx, p: Packet, count: Byte, pad: Byte, eol: Byte, quote: Byte)
    requires c.phase.AwaitStart? && rx.parms == [] && Legal(p) && p.kind == 0x53
    requires count < 224 && eol < 224 && Asks(p.data, count, pad, eol, quote)
    ensures var rx', k := PerformAll(rx, Drive(c, Frame(p)).1), |p.data|;
            && rx'.padCount == (if k >= 3 then count else 0)
            && rx'.padChar == (if k >= 4 then pad else 0)
            && rx'.eol == (if k >= 5 then eol else 0x0D)
            && rx'.quote == (if k >= 6 then quote else 0x23)
  {
    FrameAccepted(c, p);
    var rx' := SendPerformed(rx, p);
    SettingsTaken(rx', p.data, count, pad, eol, quote);
  }

  lemma SendPerformed(rx: Rx, p: Packet) returns (rx': Rx)
    requires rx.parms == [] && Legal(p) && p.kind == SEND_TYPE
    ensures PerformAll(rx, FrameActions(p)) == Perform(rx', Accept(p.kind, p.n)) && rx'.parms == ParmsKept(p.data)
  {
    var l := Payloads(p.kind, p.data);
    var rx1 := PerformAll(rx, Opening(p));
    OpeningKeeps(rx, p);
    PerformConcat(rx, Opening(p), l);
    ParmsCollected(rx1, p.data);
    rx' := PerformAll(rx1, l);
    PerformConcat(rx, Opening(p) + l, [Quiet, Accept(p.kind, p.n)]);
    LastTwo(rx', p.kind, p.n);
  }

  lemma SettingsTaken(rx: Rx, data: seq<Byte>, count: Byte, pad: Byte, eol: Byte, quote: Byte)
    requires rx.parms == ParmsKept(data) && count < 224 && eol < 224 && Asks(data, count, pad, eol, quote)
    ensures var rx', k := Negotiate(rx), |data|;
            && rx'.padCount == (if k >= 3 then count else 0)
            && rx'.padChar == (if k >= 4 then pad else 0)
            && rx'.eol == (if k >= 5 then eol else END_CHAR)
            && rx'.quote == (if k >= 6 then quote else K_ESCAPE)
  {
    if |data| >= 4 { ControlBack(pad); }
    CharRoundTrip(count);
    CharRoundTrip(eol);
    var k := Considered(|rx.parms|);
    assert if |data| < 6 then k == |data| else k >= 6;
    assert forall i :: 0 <= i < 6 && i < |data| ==> rx.parms[i] == data[i];
  }

  lemma LastTwo(rx: Rx, kind: Byte, n: Byte)
    ensures PerformAll(rx, [Quiet, Accept(kind, n)]) == Perform(rx, Accept(kind, n))
  {
    PerformConcat(rx, [Quiet], [Accept(kind, n)]);
    assert [Quiet, Accept(kind, n)] == [Quiet] + [Accept(kind, n)];
    PerformOne(rx, Quiet);
    PerformOne(rx, Accept(kind, n));
  }

  // ----- the download

  /** The download command's core: receive to `offset`.  For every file, quote
      character, cut into packets and run of the line in which a sender that listens
      to the answers moved on from data packets only while the latest answer was
      their acknowledgement, the file arrives. */
  method LoadSerialBin(r: Receiver, offset: nat, input: seq<Byte>,
                       ghost ps: seq<Packet>, ghost events: seq<Event>, ghost q: Byte, ghost file: seq<Byte>)
      returns (outcome: Outcome)
    requires r.Valid()
    requires SendsFile(ps, q, file)
    requires var rx0 := Fresh(offset, r.memory, r.sent);
             HeedfulRun(ps, events, rx0) && Listen(ps, events, rx0).kept && input == Line(ps, events)
    modifies r, r.sendParms, r.packet
    ensures outcome == Received(|file|)
    ensures Stored(r.memory, offset, file) && SameBelow(offset, old(r.memory), r.memory)
  {
    r.binStart := offset;
    outcome := r.ReceiveFile(input);
    FileArrives(offset, old(r.memory), old(r.sent), ps, events, q, file);
    assert r.State().cur == CursorOf(offset, Decoded(false, file));
  }

  lemma FileArrives(offset: nat, initial: map<nat, Byte>, sent: seq<Byte>,
                    ps: seq<Packet>, events: seq<Event>, q: Byte, file: seq<Byte>)
    requires SendsFile(ps, q, file)
    requires var rx0 := Fresh(offset, initial, sent); HeedfulRun(ps, events, rx0) && Listen(ps, events, rx0).kept
    ensures var rx, (c, actions) := Absorb(Fresh(offset, initial, sent), Line(ps, events)), Drive(POWER_ON, Line(ps, events));
            && c.phase.Stopped? && Abort !in actions
            && rx.cur == CursorOf(offset, Decoded(false, file))
            && Stored(rx.memory, offset, file) && SameBelow(offset, initial, rx.memory)
  {
    HeedfulDeliveryIff(ps, events, Fresh(offset, initial, sent));
    ListenIsTrack(ps, events, Fresh(offset, initial, sent));
    FileDecoded(ps, q, file);
    Delivery(ps, events, offset, initial, sent);
    CompletedUnaborted(ps, events);
  }
}
