/** Whole transfers: a sender that repeats a packet until it is acknowledged,
    over a line that loses, damages and repeats.
 */
module KermitSession {
  import opened Arithmetic
  import opened KermitWire
  import opened KermitDamage
  import opened KermitData
  import opened KermitReceiver
  import opened KermitDelivery

  /** What arrives on the line between two start characters the receiver
      honours.  Packets are named by their index in the sender's list. */
  datatype Event =
    | Noise(bytes: seq<Byte>)
    | BadLead(bytes: seq<Byte>)               // length or sequence byte below space
    | Damaged(i: nat, tail: seq<Byte>)        // lead intact, then refused
    | Intact(i: nat)

  ghost predicate Plausible(ps: seq<Packet>, e: Event)
    requires forall i :: 0 <= i < |ps| ==> Legal(ps[i])
  {
    match e
    case Noise(s) => Idle(s)
    case BadLead(s) =>
      || (|s| >= 1 && s[0] < SPACE && Idle(s[1..]))
      || (|s| >= 2 && SPACE <= s[0] && s[1] < SPACE && Idle(s[2..]))
    case Damaged(i, tail) => i < |ps| && exists k: nat :: RejectedAt(AtType(ps[i]), tail, k)
    case Intact(i) => i < |ps|
  }

  function Arriving(ps: seq<Packet>, e: Event): seq<Byte>
    requires e.Damaged? || e.Intact? ==> e.i < |ps|
  {
    match e
    case Noise(s) => s
    case BadLead(s) => [START_CHAR] + s
    case Damaged(i, tail) => Lead(ps[i]) + tail
    case Intact(i) => Frame(ps[i])
  }

  // ----- what one event does to the ledger

  /** Between attempts nothing is half-received. */
  predicate AtRest(l: Ledger) {
    l.live == [] && l.parms == []
  }

  /** The send-init parameters the receiver keeps of a packet. */
  function ParmsKept(data: seq<Byte>): seq<Byte> {
    if |data| < SEND_DATA_SIZE then data else data[..SEND_DATA_SIZE - 1]
  }

  function Book(l: Ledger, p: Packet): Ledger {
    if p.kind == DATA_TYPE then l.(pending := [Chunk(l.quote, p.data)])
    else if p.kind == SEND_TYPE then l.(quote := QuoteOf(ParmsKept(p.data)))
    else l
  }

  function Effect(ps: seq<Packet>, l: Ledger, e: Event): Ledger
    requires e.Damaged? || e.Intact? ==> e.i < |ps|
  {
    match e
    case Noise(_) => l
    case BadLead(_) => l.(pending := [])
    case Damaged(i, _) => Enter(l, Begin(ps[i].n)).(pending := [])
    case Intact(i) => Book(Enter(l, Begin(ps[i].n)), ps[i])
  }

  lemma {:induction false} EnterConcat(l: Ledger, s: seq<Action>, t: seq<Action>)
    ensures EnterAll(l, s + t) == EnterAll(EnterAll(l, s), t)
    decreases |t|
  {
    if t == [] {
      assert s + t == s;
    } else {
      EnterConcat(l, s, t[..|t| - 1]);
      assert (s + t)[..|s + t| - 1] == s + t[..|t| - 1];
    }
  }

  lemma {:induction false} EnterQuiet(l: Ledger, t: seq<Action>)
    requires forall i :: 0 <= i < |t| ==> t[i].Quiet?
    ensures EnterAll(l, t) == l
    decreases |t|
  {
    if t != [] {
      EnterQuiet(l, t[..|t| - 1]);
    }
  }

  lemma {:induction false} EnterPassive(l: Ledger, t: seq<Action>)
    requires forall i :: 0 <= i < |t| ==> Passive(t[i])
    ensures var l' := EnterAll(l, t); l' == l.(live := l'.live, parms := l'.parms)
    decreases |t|
  {
    if t != [] {
      EnterPassive(l, t[..|t| - 1]);
    }
  }

  lemma {:induction false} EnterPayloads(l: Ledger, kind: Byte, data: seq<Byte>)
    requires AtRest(l)
    ensures EnterAll(l, Payloads(kind, data)) ==
            if kind == DATA_TYPE then l.(live := data)
            else if kind == SEND_TYPE then l.(parms := ParmsKept(data))
            else l
    decreases |data|
  {
    var t := Payloads(kind, data);
    if data != [] {
      var init := data[..|data| - 1];
      EnterPayloads(l, kind, init);
      assert t[..|t| - 1] == Payloads(kind, init);
      assert data == init + [data[|data| - 1]];
    }
  }

  lemma EnterOne(l: Ledger, a: Action)
    ensures EnterAll(l, [a]) == Enter(l, a)
  {
    assert [a][..0] == [];
    assert EnterAll(l, []) == l;
  }

  lemma EnterLead(l: Ledger, t: seq<Action>, n: Byte)
    requires |t| >= 3 && t[0].Quiet? && t[1].Quiet? && t[2] == Begin(n)
    requires forall i :: 3 <= i < |t| ==> t[i].Quiet?
    ensures EnterAll(l, t) == Enter(l, Begin(n))
  {
    EnterConcat(l, t[..2], t[2..]);
    assert t == t[..2] + t[2..];
    EnterQuiet(l, t[..2]);
    EnterConcat(l, [t[2]], t[3..]);
    assert t[2..] == [t[2]] + t[3..];
    EnterOne(l, t[2]);
    EnterQuiet(Enter(l, t[2]), t[3..]);
  }

  lemma IntactEffect(c: Control, l: Ledger, p: Packet)
    requires c.phase.AwaitStart? && AtRest(l) && Legal(p)
    requires Enter(l, Begin(p.n)).pending == []
    ensures Yields(c, l, Frame(p), Book(Enter(l, Begin(p.n)), p), p.kind == BREAK_TYPE)
  {
    FrameAccepted(c, p);
    FrameBooked(l, p);
  }

  /** The actions of a frame book its packet. */
  lemma FrameBooked(l: Ledger, p: Packet)
    requires AtRest(l) && Legal(p) && Enter(l, Begin(p.n)).pending == []
    ensures EnterAll(l, FrameActions(p)) == Book(Enter(l, Begin(p.n)), p) && AtRest(Book(Enter(l, Begin(p.n)), p))
  {
    var l1 := Enter(l, Begin(p.n));
    var body := Payloads(p.kind, p.data);
    var end := [Quiet, Accept(p.kind, p.n)];
    EnterConcat(l, Opening(p) + body, end);
    EnterConcat(l, Opening(p), body);
    assert EnterAll(l, Opening(p)) == l1 by { EnterLead(l, Opening(p), p.n); }
    var l2 := EnterAll(l1, body);
    assert EnterAll(l2, end) == Book(l1, p) by {
      EnterPayloads(l1, p.kind, p.data);
      EnterEnd(l2, p.kind, p.n);
    }
  }

  lemma EnterEnd(l: Ledger, kind: Byte, n: Byte)
    ensures EnterAll(l, [Quiet, Accept(kind, n)]) == Enter(l, Accept(kind, n))
  {
    EnterConcat(l, [Quiet], [Accept(kind, n)]);
    assert [Quiet, Accept(kind, n)] == [Quiet] + [Accept(kind, n)];
    EnterOne(l, Quiet);
    EnterOne(l, Accept(kind, n));
  }

  lemma RejectedEffect(c: Control, l: Ledger, s: seq<Byte>, k: nat)
    requires RejectedAt(c, s, k) && AtRest(l)
    ensures Drive(c, s).0.phase.AwaitStart?
    ensures EnterAll(l, Drive(c, s).1) == l.(pending := [])
  {
    DrivePrefix(c, s, k);
    DriveRefused(c, s, k);
    EnterRefused(l, Drive(c, s).1, k);
  }

  lemma EnterRefused(l: Ledger, t: seq<Action>, k: nat)
    requires AtRest(l) && k < |t| && t[k].Reject?
    requires (forall i :: 0 <= i < k ==> Passive(t[i])) && (forall i :: k < i < |t| ==> t[i].Quiet?)
    ensures EnterAll(l, t) == l.(pending := [])
  {
    EnterConcat(l, t[..k], t[k..]);
    assert t == t[..k] + t[k..];
    EnterPassive(l, t[..k]);
    var l' := EnterAll(l, t[..k]);
    EnterConcat(l', [t[k]], t[k + 1..]);
    assert t[k..] == [t[k]] + t[k + 1..];
    EnterOne(l', t[k]);
    EnterQuiet(Enter(l', t[k]), t[k + 1..]);
  }

  lemma DamagedEffect(c: Control, l: Ledger, p: Packet, tail: seq<Byte>, k: nat)
    requires c.phase.AwaitStart? && AtRest(l) && Legal(p) && RejectedAt(AtType(p), tail, k)
    ensures Yields(c, l, Lead(p) + tail, Enter(l, Begin(p.n)).(pending := []), false)
  {
    DriveLead(c, p);
    DriveConcat(c, Lead(p), tail);
    EnterConcat(l, [Quiet, Quiet, Begin(p.n)], Drive(AtType(p), tail).1);
    EnterLead(l, [Quiet, Quiet, Begin(p.n)], p.n);
    RejectedEffect(AtType(p), Enter(l, Begin(p.n)), tail, k);
  }

  lemma BadLeadEffect(c: Control, l: Ledger, s: seq<Byte>)
    requires c.phase.AwaitStart? && AtRest(l)
    requires (|s| >= 1 && s[0] < SPACE && Idle(s[1..])) ||
             (|s| >= 2 && SPACE <= s[0] && s[1] < SPACE && Idle(s[2..]))
    ensures Yields(c, l, [START_CHAR] + s, l.(pending := []), false)
  {
    var k := if s[0] < SPACE then 1 else 2;
    var f := [START_CHAR] + s;
    DriveBadLead(c, f, k);
    assert f[k + 1..] == s[k..];
    DriveRefused(c, f, k);
    DrivePrefix(c, f, k);
    RejectedEffect(c, l, f, k);
  }

  /** A start character, and perhaps a length, before a control character. */
  lemma DriveBadLead(c: Control, f: seq<Byte>, k: nat)
    requires c.phase.AwaitStart? && (k == 1 || k == 2) && k < |f| && f[0] == START_CHAR && f[k] < SPACE
    requires k == 2 ==> SPACE <= f[1]
    ensures Advance(Drive(c, f[..k]).0, f[k]).1.Reject?
    ensures forall j :: 0 <= j < k ==> Drive(c, f[..k]).1[j].Quiet?
  {
    var c0 := Control(AwaitLength, 0, 0, c.n, 0);
    DriveStep(c, [], START_CHAR, c, []);
    assert [] + [START_CHAR] == f[..1] && [] + [Quiet] == [Quiet];
    if k == 2 {
      DriveStep(c, f[..1], f[1], c0, [Quiet]);
      assert f[..1] + [f[1]] == f[..2];
    }
  }

  /** From an idle state, the bytes `s` take the ledger from `l` to `l'` and
      leave the receiver stopped or idle. */
  ghost predicate Yields(c: Control, l: Ledger, s: seq<Byte>, l': Ledger, stops: bool) {
    && EnterAll(l, Drive(c, s).1) == l'
    && AtRest(l')
    && (if stops then Drive(c, s).0.phase.Stopped? else Drive(c, s).0.phase.AwaitStart?)
  }

  lemma NoiseEffect(c: Control, l: Ledger, s: seq<Byte>)
    requires c.phase.AwaitStart? && AtRest(l) && Idle(s)
    ensures Yields(c, l, s, l, false)
  {
    DriveIdle(c, s);
    EnterQuiet(l, Drive(c, s).1);
  }

  predicate Stops(ps: seq<Packet>, e: Event) {
    e.Intact? && e.i < |ps| && ps[e.i].kind == BREAK_TYPE
  }

  /** One event, in any idle state, has exactly its ledger effect. */
  lemma EventEffect(ps: seq<Packet>, c: Control, l: Ledger, e: Event)
    requires forall i :: 0 <= i < |ps| ==> Legal(ps[i])
    requires Plausible(ps, e) && c.phase.AwaitStart? && AtRest(l)
    ensures Yields(c, l, Arriving(ps, e), Effect(ps, l, e), Stops(ps, e))
  {
    match e
    case Noise(s) => NoiseEffect(c, l, s);
    case BadLead(s) => BadLeadEffect(c, l, s);
    case Damaged(i, tail) =>
      var k: nat :| RejectedAt(AtType(ps[i]), tail, k);
      DamagedEffect(c, l, ps[i], tail, k);
    case Intact(i) => IntactEffect(c, l, ps[i]);
  }

  /** A frame with one flipped bit after its sequence number is an attempt the
      line model covers. */
  lemma OneBitIsPlausible(ps: seq<Packet>, i: nat, at: nat, s: seq<Byte>)
    requires forall j :: 0 <= j < |ps| ==> Legal(ps[j])
    requires i < |ps| && OneBitDamage(ps[i], at, s)
    ensures Plausible(ps, Damaged(i, s[3..])) && Arriving(ps, Damaged(i, s[3..])) == s
  {
    OneBitRejected(ps[i], at, s);
    LeadOfFrame(ps[i]);
    assert s[..3] == Frame(ps[i])[..3];
    assert s == s[..3] + s[3..];
  }

  // ----- runs

  ghost predicate LegalRun(ps: seq<Packet>, events: seq<Event>) {
    && (forall i :: 0 <= i < |ps| ==> Legal(ps[i]))
    && (forall i :: 0 <= i < |events| ==> Plausible(ps, events[i]))
    && (forall i :: 0 <= i < |events| - 1 ==> !Stops(ps, events[i]))
  }

  ghost function Line(ps: seq<Packet>, events: seq<Event>): seq<Byte>
    requires LegalRun(ps, events)
    decreases |events|
  {
    if events == [] then [] else Line(ps, events[..|events| - 1]) + Arriving(ps, events[|events| - 1])
  }

  ghost function Books(ps: seq<Packet>, events: seq<Event>): Ledger
    requires LegalRun(ps, events)
    decreases |events|
  {
    if events == [] then EMPTY else Effect(ps, Books(ps, events[..|events| - 1]), events[|events| - 1])
  }

  /** The ledger of a whole run is the composition of its events' effects. */
  lemma {:induction false} RunAccount(ps: seq<Packet>, events: seq<Event>)
    requires LegalRun(ps, events)
    ensures Yields(POWER_ON, EMPTY, Line(ps, events), Books(ps, events),
                   events != [] && Stops(ps, events[|events| - 1]))
    decreases |events|
  {
    if events != [] {
      var init, e := events[..|events| - 1], events[|events| - 1];
      RunAccount(ps, init);
      var (c, actions) := Drive(POWER_ON, Line(ps, init));
      EventEffect(ps, c, Books(ps, init), e);
      DriveConcat(POWER_ON, Line(ps, init), Arriving(ps, e));
      EnterConcat(EMPTY, actions, Drive(c, Arriving(ps, e)).1);
    }
  }

  // ----- the sender

  /** Where the sender stands: the packet it is sending, whether some attempt of
      it has been accepted, whether the latest one was and still counts, and
      whether every data packet it has moved on from still counted then. */
  datatype Sender = Sender(at: int, ever: bool, sure: bool, kept: bool, ok: bool)

  const SETTING_OUT := Sender(-1, true, true, true, true)

  function Attempt(ps: seq<Packet>, st: Sender, j: nat, intact: bool): Sender {
    if j == st.at then
      st.(ever := st.ever || intact, sure := intact)
    else if j == st.at + 1 && st.ever then
      // moves on: some acknowledgement, timely or late, has arrived
      var safe := st.at < 0 || st.at >= |ps| || ps[st.at].kind != DATA_TYPE || st.sure;
      Sender(j, intact, intact, st.kept && safe, st.ok)
    else
      st.(ok := false)
  }

  function Proceed(ps: seq<Packet>, st: Sender, e: Event): Sender {
    match e
    case Noise(_) => st
    case BadLead(_) => st.(sure := false)
    case Damaged(i, _) => Attempt(ps, st, i, false)
    case Intact(i) => Attempt(ps, st, i, true)
  }

  function Track(ps: seq<Packet>, events: seq<Event>): Sender {
    if events == [] then SETTING_OUT
    else Proceed(ps, Track(ps, events[..|events| - 1]), events[|events| - 1])
  }

  // ----- what ought to be delivered

  /** The quote character in force before packet `k`. */
  function QuoteAt(ps: seq<Packet>, k: nat): Byte
    requires k <= |ps|
  {
    if k == 0 then K_ESCAPE
    else if ps[k - 1].kind == SEND_TYPE then QuoteOf(ParmsKept(ps[k - 1].data))
    else QuoteAt(ps, k - 1)
  }

  /** The data packets among the first `k`, each once, in order. */
  function Chunks(ps: seq<Packet>, k: nat): seq<Chunk>
    requires k <= |ps|
  {
    if k == 0 then []
    else if ps[k - 1].kind == DATA_TYPE then Chunks(ps, k - 1) + [Chunk(QuoteAt(ps, k - 1), ps[k - 1].data)]
    else Chunks(ps, k - 1)
  }

  /** How the ledger follows the sender. */
  predicate Follows(ps: seq<Packet>, st: Sender, l: Ledger) {
    && -1 <= st.at < |ps|
    && if st.at == -1 then l == EMPTY && st.kept && st.ever else
       var p := ps[st.at];
       && l.lastN == p.n
       && l.quote == QuoteAt(ps, if st.ever then st.at + 1 else st.at)
       && (st.sure ==> st.ever)
       && l.pending == (if st.sure && p.kind == DATA_TYPE then [Chunk(QuoteAt(ps, st.at), p.data)] else [])
       && (if st.kept then l.committed == Chunks(ps, st.at) else |l.committed| < |Chunks(ps, st.at)|)
  }

  /** Neighbouring packets carry different numbers, as counting modulo 64 does. */
  predicate Numbered(ps: seq<Packet>) {
    forall i :: 0 < i < |ps| ==> ps[i].n != ps[i - 1].n
  }

  lemma FollowsAttempt(ps: seq<Packet>, st: Sender, l: Ledger, j: nat, intact: bool)
    requires forall i :: 0 <= i < |ps| ==> Legal(ps[i])
    requires Numbered(ps) && Follows(ps, st, l) && AtRest(l) && j < |ps|
    requires st.ok && Attempt(ps, st, j, intact).ok
    ensures var l1 := Enter(l, Begin(ps[j].n));
            Follows(ps, Attempt(ps, st, j, intact), if intact then Book(l1, ps[j]) else l1.(pending := []))
  {
    var l1 := Enter(l, Begin(ps[j].n));
    if j == st.at {
      assert l1 == l.(pending := []);
    } else if st.at == -1 {
      assert l1 == EMPTY.(lastN := ps[j].n);
    } else {
      assert ps[j].n != l.lastN;
      assert l1.committed == l.committed + l.pending;
    }
  }

  lemma {:induction false} LedgerFollowsSender(ps: seq<Packet>, events: seq<Event>)
    requires LegalRun(ps, events) && Numbered(ps) && Track(ps, events).ok
    ensures Follows(ps, Track(ps, events), Books(ps, events)) && AtRest(Books(ps, events))
    decreases |events|
  {
    if events != [] {
      var init, e := events[..|events| - 1], events[|events| - 1];
      LedgerFollowsSender(ps, init);
      FollowsEvent(ps, Track(ps, init), Books(ps, init), e);
    }
  }

  lemma FollowsEvent(ps: seq<Packet>, st: Sender, l: Ledger, e: Event)
    requires forall i :: 0 <= i < |ps| ==> Legal(ps[i])
    requires e.Damaged? || e.Intact? ==> e.i < |ps|
    requires Numbered(ps) && Follows(ps, st, l) && AtRest(l)
    requires st.ok && Proceed(ps, st, e).ok
    ensures Follows(ps, Proceed(ps, st, e), Effect(ps, l, e)) && AtRest(Effect(ps, l, e))
  {
    EffectAtRest(ps, l, e);
    match e
    case Noise(_) =>
    case BadLead(_) => FollowsBadLead(ps, st, l);
    case Damaged(i, _) => FollowsAttempt(ps, st, l, i, false);
    case Intact(i) => FollowsAttempt(ps, st, l, i, true);
  }

  lemma EffectAtRest(ps: seq<Packet>, l: Ledger, e: Event)
    requires AtRest(l) && (e.Damaged? || e.Intact? ==> e.i < |ps|)
    ensures AtRest(Effect(ps, l, e))
  {
  }

  lemma FollowsBadLead(ps: seq<Packet>, st: Sender, l: Ledger)
    requires Follows(ps, st, l)
    ensures Follows(ps, st.(sure := false), l.(pending := []))
  {
  }

  /** A run in which the sender, advancing only past packets that were accepted
      at some time, got its final break packet accepted. */
  ghost predicate Completed(ps: seq<Packet>, events: seq<Event>) {
    && LegalRun(ps, events) && Numbered(ps) && Track(ps, events).ok
    && events != [] && ps != []
    && events[|events| - 1] == Intact(|ps| - 1)
    && ps[|ps| - 1].kind == BREAK_TYPE
  }

  /** What the receiver has taken over when the run ends. */
  ghost function Delivered(ps: seq<Packet>, events: seq<Event>): seq<Chunk>
    requires LegalRun(ps, events)
  {
    var l := Account(Line(ps, events));
    l.committed + l.pending
  }

  /** Exactly-once delivery, both ways: the receiver ends with each data packet
      once and in order if and only if, each time the sender moved on from a
      data packet, the latest attempt to send it had been accepted and no broken
      length or sequence byte had come in since. */
  lemma DeliveredExactlyOnceIff(ps: seq<Packet>, events: seq<Event>)
    requires Completed(ps, events)
    ensures Delivered(ps, events) == Chunks(ps, |ps|) <==> Track(ps, events).kept
  {
    var st, l := Track(ps, events), Account(Line(ps, events));
    assert Follows(ps, st, l) by {
      RunAccount(ps, events);
      LedgerFollowsSender(ps, events);
    }
    assert st.at == |ps| - 1 by { AtLastPacket(ps, Track(ps, events[..|events| - 1]), st); }
    Settled(ps, st, l);
  }

  lemma AtLastPacket(ps: seq<Packet>, before: Sender, st: Sender)
    requires ps != [] && st == Proceed(ps, before, Intact(|ps| - 1)) && st.ok
    ensures st.at == |ps| - 1
  {
  }

  lemma Settled(ps: seq<Packet>, st: Sender, l: Ledger)
    requires Follows(ps, st, l) && st.at == |ps| - 1 && 0 <= st.at && ps[st.at].kind == BREAK_TYPE
    ensures l.committed + l.pending == Chunks(ps, |ps|) <==> st.kept
  {
    assert l.committed + [] == l.committed;
  }

  /** Delivery: in a completed run without such a loss, memory holds exactly the
      decoded data from the start address on, nothing below it has changed, and
      the size is that of the data. */
  lemma Delivery(ps: seq<Packet>, events: seq<Event>, start: nat, initial: map<nat, Byte>, sent: seq<Byte>)
    requires Completed(ps, events) && Track(ps, events).kept
    ensures var rx, d := Absorb(Fresh(start, initial, sent), Line(ps, events)), DecodeChunks(Chunks(ps, |ps|));
            && rx.cur == CursorOf(start, d)
            && Stored(rx.memory, start, d.out)
            && SameBelow(start, initial, rx.memory)
    ensures Drive(POWER_ON, Line(ps, events)).0.phase.Stopped?
  {
    var s := Line(ps, events);
    DeliveredExactlyOnceIff(ps, events);
    ReceiverRefinesLedger(s, start, initial, sent);
    RunAccount(ps, events);
    assert AtRest(Account(s));
    assert Decoding(Account(s)) == DecodeChunks(Delivered(ps, events));
  }

  lemma CompletedUnaborted(ps: seq<Packet>, events: seq<Event>)
    requires Completed(ps, events)
    ensures Abort !in Drive(POWER_ON, Line(ps, events)).1
  {
    var init, p := events[..|events| - 1], ps[|ps| - 1];
    RunAccount(ps, init);
    BreakUnaborted(Line(ps, init), p);
  }

  lemma BreakUnaborted(s: seq<Byte>, p: Packet)
    requires Drive(POWER_ON, s).0.phase.AwaitStart? && Legal(p)
    ensures Abort !in Drive(POWER_ON, s + Frame(p)).1
  {
    RunningUnaborted(POWER_ON, s);
    FrameAccepted(Drive(POWER_ON, s).0, p);
    DriveConcat(POWER_ON, s, Frame(p));
    assert Abort !in FrameActions(p);
  }

  // ----- a sender that waits

  /** The packet of the latest attempt, and whether it was accepted. */
  function Latest(events: seq<Event>): (int, bool) {
    if events == [] then (-1, true)
    else
      match events[|events| - 1]
      case Damaged(i, _) => (i, false)
      case Intact(i) => (i, true)
      case _ => Latest(events[..|events| - 1])
  }

  /** The sender repeats a packet until its latest attempt has been accepted, and
      as often as acknowledgements get lost; length and sequence bytes arrive
      intact. */
  predicate Patient(events: seq<Event>) {
    events == [] ||
    var init := events[..|events| - 1];
    Patient(init) &&
    match events[|events| - 1]
    case Noise(_) => true
    case BadLead(_) => false
    case Damaged(i, _) => Next(Latest(init), i)
    case Intact(i) => Next(Latest(init), i)
  }

  predicate Next(latest: (int, bool), i: nat) {
    i == latest.0 || (latest.1 && i == latest.0 + 1)
  }

  lemma {:induction false} PatientTrack(ps: seq<Packet>, events: seq<Event>)
    requires Patient(events)
    ensures var st := Track(ps, events);
            st.ok && st.kept && (st.at, st.sure) == Latest(events) && (st.sure ==> st.ever)
    decreases |events|
  {
    if events != [] { PatientTrack(ps, events[..|events| - 1]); }
  }

  /** Whatever noise, losses of acknowledgements, repeats and damage after the
      sequence byte there are, nothing that such a sender sends is lost. */
  lemma PatientSenderLosesNothing(ps: seq<Packet>, events: seq<Event>)
    requires LegalRun(ps, events) && Numbered(ps) && Patient(events)
    requires events != [] && ps != [] && events[|events| - 1] == Intact(|ps| - 1) && ps[|ps| - 1].kind == BREAK_TYPE
    ensures Completed(ps, events) && Track(ps, events).kept
    ensures Delivered(ps, events) == Chunks(ps, |ps|)
  {
    PatientTrack(ps, events);
    DeliveredExactlyOnceIff(ps, events);
  }

  // ----- files

  /** The packets are a send-init that asks for quote character `q`, then
      anything but another one, whose data packets cut up the quoted file. */
  ghost predicate SendsFile(ps: seq<Packet>, q: Byte, file: seq<Byte>) {
    && LegalQuote(q)
    && ps != [] && ps[0].kind == SEND_TYPE && QuoteOf(ParmsKept(ps[0].data)) == q
    && (forall i :: 0 < i < |ps| ==> ps[i].kind != SEND_TYPE)
    && Join(Chunks(ps, |ps|)) == Encode(q, file)
  }

  lemma {:induction false} QuoteConstant(ps: seq<Packet>, q: Byte, k: nat)
    requires 1 <= k <= |ps| && ps[0].kind == SEND_TYPE && QuoteOf(ParmsKept(ps[0].data)) == q
    requires forall i :: 0 < i < |ps| ==> ps[i].kind != SEND_TYPE
    ensures QuoteAt(ps, k) == q
    ensures forall i :: 0 <= i < |Chunks(ps, k)| ==> Chunks(ps, k)[i].quote == q
    decreases k
  {
    if k > 1 {
      QuoteConstant(ps, q, k - 1);
    } else {
      assert Chunks(ps, 1) == [];
    }
  }

  /** The decoded data of such a run is the file. */
  lemma FileDecoded(ps: seq<Packet>, q: Byte, file: seq<Byte>)
    requires SendsFile(ps, q, file)
    ensures DecodeChunks(Chunks(ps, |ps|)) == Decoded(false, file)
  {
    QuoteConstant(ps, q, |ps|);
    QuotingRoundTrip(q, file, Chunks(ps, |ps|));
  }
}
