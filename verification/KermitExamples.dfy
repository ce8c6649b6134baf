/** Concrete transfers that show where the delivery theorems end, and what the
    download command reports.
 */
module KermitExamples {
  import opened Arithmetic
  import opened KermitWire
  import opened KermitDamage
  import opened KermitData
  import opened KermitReceiver
  import opened KermitDelivery
  import opened KermitSession
  import opened KermitReplies

  // ----- runs of five events

  /** The beginnings of a run of five. */
  lemma Beginnings(run: seq<Event>)
    requires |run| == 5
    ensures run[..1][..0] == [] && run[..2][..1] == run[..1] && run[..3][..2] == run[..2] && run[..4][..3] == run[..3]
    ensures run[..1][0] == run[0] && run[..2][1] == run[1] && run[..3][2] == run[2] && run[..4][3] == run[3]
  {
  }

  /** The ledger after the first `k` events. */
  ghost function BooksAt(ps: seq<Packet>, run: seq<Event>, k: nat): Ledger
    requires LegalRun(ps, run) && k <= |run|
  {
    Books(ps, run[..k])
  }

  lemma BooksStep(ps: seq<Packet>, run: seq<Event>, k: nat, l: Ledger)
    requires LegalRun(ps, run) && k < |run| && BooksAt(ps, run, k) == l
    ensures BooksAt(ps, run, k + 1) == Effect(ps, l, run[k])
  {
    assert run[..k + 1][..k] == run[..k];
  }

  lemma BooksWhole(ps: seq<Packet>, run: seq<Event>, k: nat)
    requires LegalRun(ps, run) && k == |run|
    ensures BooksAt(ps, run, k) == Books(ps, run)
  {
    assert run[..k] == run;
  }

  lemma BooksStart(ps: seq<Packet>, run: seq<Event>)
    requires LegalRun(ps, run)
    ensures BooksAt(ps, run, 0) == EMPTY
  {
  }

  /** A data packet under a new number. */
  lemma DataBooked(ps: seq<Packet>, run: seq<Event>, k: nat, l: Ledger, i: nat)
    requires LegalRun(ps, run) && k < |run| && BooksAt(ps, run, k) == l && run[k] == Intact(i)
    requires i < |ps| && ps[i].kind == DATA_TYPE && ps[i].n != l.lastN
    ensures BooksAt(ps, run, k + 1) == l.(committed := l.committed + l.pending, pending := [Chunk(l.quote, ps[i].data)], lastN := ps[i].n)
  {
    BooksStep(ps, run, k, l);
  }

  /** A break packet under a new number. */
  lemma BreakBooked(ps: seq<Packet>, run: seq<Event>, k: nat, l: Ledger, i: nat)
    requires LegalRun(ps, run) && k < |run| && BooksAt(ps, run, k) == l && run[k] == Intact(i)
    requires i < |ps| && ps[i].kind == BREAK_TYPE && ps[i].n != l.lastN
    ensures BooksAt(ps, run, k + 1) == l.(committed := l.committed + l.pending, pending := [], lastN := ps[i].n)
  {
    BooksStep(ps, run, k, l);
  }

  /** Anything that rolls back under the number seen last. */
  lemma RolledBack(ps: seq<Packet>, run: seq<Event>, k: nat, l: Ledger)
    requires LegalRun(ps, run) && k < |run| && BooksAt(ps, run, k) == l
    requires run[k].BadLead? || (run[k].Damaged? && run[k].i < |ps| && ps[run[k].i].n == l.lastN)
    ensures BooksAt(ps, run, k + 1) == l.(pending := [])
  {
    BooksStep(ps, run, k, l);
  }

  /** The send-init packet of the sample. */
  lemma SendBooked(ps: seq<Packet>, run: seq<Event>)
    requires LegalRun(ps, run) && run != [] && run[0] == Intact(0) && ps != [] && ps[0] == Packet(0, SEND_TYPE, [], false)
    ensures BooksAt(ps, run, 1) == Ledger([], [], [], 0, K_ESCAPE, [])
  {
    BooksStart(ps, run);
    BooksStep(ps, run, 0, EMPTY);
  }

  lemma LineStep(ps: seq<Packet>, run: seq<Event>, k: nat, s: seq<Byte>)
    requires LegalRun(ps, run) && k < |run| && Line(ps, run[..k]) == s
    ensures Line(ps, run[..k + 1]) == s + Arriving(ps, run[k])
  {
    assert run[..k + 1][..k] == run[..k];
  }

  // ----- why the condition is needed

  /** Send-init without parameters, two data packets "AB" and "CD", break. */
  const SAMPLE: seq<Packet> :=
    [Packet(0, SEND_TYPE, [], false), Packet(1, DATA_TYPE, [0x41, 0x42], false),
     Packet(2, DATA_TYPE, [0x43, 0x44], false), Packet(3, BREAK_TYPE, [], false)]

  lemma SampleFile()
    ensures SendsFile(SAMPLE, K_ESCAPE, [0x41, 0x42, 0x43, 0x44])
  {
    SampleChunks();
    SampleEncoded([0x41, 0x42, 0x43, 0x44]);
  }

  lemma SampleChunks()
    ensures Join(Chunks(SAMPLE, 4)) == [0x41, 0x42, 0x43, 0x44]
  {
    SampleQuotes();
    var x, y := Chunk(K_ESCAPE, [0x41, 0x42]), Chunk(K_ESCAPE, [0x43, 0x44]);
    assert Chunks(SAMPLE, 1) == [];
    assert Chunks(SAMPLE, 2) == [] + [x];
    assert Chunks(SAMPLE, 3) == [x] + [y];
    assert Chunks(SAMPLE, 4) == [x, y];
    JoinTwo(x, y);
  }

  lemma SampleQuotes()
    ensures QuoteAt(SAMPLE, 1) == K_ESCAPE && QuoteAt(SAMPLE, 2) == K_ESCAPE
  {
  }

  lemma JoinTwo(x: Chunk, y: Chunk)
    ensures Join([x, y]) == x.data + y.data
  {
    var s := [x, y];
    assert s[..1] == [x] && [x][..0] == [];
    assert Join([x]) == [] + x.data;
  }

  lemma SampleEncoded(file: seq<Byte>)
    requires file == [0x41, 0x42, 0x43, 0x44]
    ensures Encode(K_ESCAPE, file) == file
  {
    var q := K_ESCAPE;
    assert file[..3][..2] == file[..2] && file[..2][..1] == file[..1] && file[..1][..0] == [];
    assert Encode(q, file[..1]) == [0x41];
    assert Encode(q, file[..2]) == [0x41, 0x42];
    assert Encode(q, file[..3]) == [0x41, 0x42, 0x43];
  }

  /** Packet 1 arrives and is accepted, `e` follows, and the sender goes on. */
  function SampleRun(e: Event): seq<Event> {
    [Intact(0), Intact(1), e, Intact(2), Intact(3)]
  }

  lemma SampleRunLegal(e: Event)
    requires e == BadLead([0x05]) || e == Damaged(1, [0x05])
    ensures LegalRun(SAMPLE, SampleRun(e)) && Numbered(SAMPLE)
  {
    ControlRefused(AtType(SAMPLE[1]));
    assert forall i :: 0 <= i < |SAMPLE| ==> Legal(SAMPLE[i]);
    assert Plausible(SAMPLE, e);
  }

  /** A control character in place of a packet type is refused. */
  lemma ControlRefused(c: Control)
    requires c.phase.AwaitType?
    ensures RejectedAt(c, [0x05], 0)
  {
    DriveStep(c, [], 0x05, c, []);
    assert [] + [0x05] == [0x05];
  }

  /** Two data packets with something in between that rolls back the first. */
  lemma SampleBooks(ps: seq<Packet>, run: seq<Event>, e: Event, x: seq<Byte>, y: seq<Byte>)
    requires LegalRun(ps, run) && run == [Intact(0), Intact(1), e, Intact(2), Intact(3)]
    requires |ps| == 4 && ps[0] == Packet(0, SEND_TYPE, [], false) && ps[1] == Packet(1, DATA_TYPE, x, false)
    requires ps[2] == Packet(2, DATA_TYPE, y, false) && ps[3] == Packet(3, BREAK_TYPE, [], false)
    requires e.BadLead? || (e.Damaged? && e.i == 1)
    ensures Books(ps, run).committed == [Chunk(K_ESCAPE, y)] && Books(ps, run).pending == []
  {
    var c := [Chunk(K_ESCAPE, y)];
    SendBooked(ps, run);
    DataBooked(ps, run, 1, Ledger([], [], [], 0, K_ESCAPE, []), 1);
    RolledBack(ps, run, 2, Ledger([] + [], [Chunk(K_ESCAPE, x)], [], 1, K_ESCAPE, []));
    DataBooked(ps, run, 3, Ledger([] + [], [], [], 1, K_ESCAPE, []), 2);
    BreakBooked(ps, run, 4, Ledger([] + [], c, [], 2, K_ESCAPE, []), 3);
    assert [] + [] + c == c;
    BooksWhole(ps, run, 5);
  }

  lemma SampleTrack(e: Event)
    requires e == BadLead([0x05]) || e == Damaged(1, [0x05])
    ensures Track(SAMPLE, SampleRun(e)) == Sender(3, true, true, false, true)
  {
    var run := SampleRun(e);
    Beginnings(run);
    assert Track(SAMPLE, run[..1]) == Sender(0, true, true, true, true);
    assert Track(SAMPLE, run[..2]) == Sender(1, true, true, true, true);
    assert Track(SAMPLE, run[..3]) == Sender(1, true, false, true, true);
    assert Track(SAMPLE, run[..4]) == Sender(2, true, true, false, true);
  }

  /** The exactly-once condition is not idle.  A control character in place of
      the next length byte, or a late acknowledgement that lets the sender move
      on after a damaged repeat, silently drops packet 1: the transfer
      completes, every packet was accepted, and the four-byte file arrives as
      its last two bytes. */
  lemma AcceptedPacketLost(e: Event, start: nat, initial: map<nat, Byte>, sent: seq<Byte>)
    requires e == BadLead([0x05]) || e == Damaged(1, [0x05])
    ensures Completed(SAMPLE, SampleRun(e)) && !Track(SAMPLE, SampleRun(e)).kept
    ensures SendsFile(SAMPLE, K_ESCAPE, [0x41, 0x42, 0x43, 0x44])
    ensures var rx := Absorb(Fresh(start, initial, sent), Line(SAMPLE, SampleRun(e)));
            rx.cur == Cursor(false, start + 2) && Stored(rx.memory, start, [0x43, 0x44])
  {
    var run := SampleRun(e);
    SampleFile();
    SampleRunLegal(e);
    SampleTrack(e);
    SampleBooks(SAMPLE, run, e, [0x41, 0x42], [0x43, 0x44]);
    RunAccount(SAMPLE, run);
    ReceiverRefinesLedger(Line(SAMPLE, run), start, initial, sent);
    OneChunkDecoded(Account(Line(SAMPLE, run)), 0x43, 0x44);
  }

  lemma OneChunkDecoded(l: Ledger, x: Byte, y: Byte)
    requires l.committed == [Chunk(K_ESCAPE, [x, y])] && l.pending == [] && AtRest(l) && x != K_ESCAPE && y != K_ESCAPE
    ensures Decoding(l) == Decoded(false, [x, y])
  {
    assert l.committed + l.pending == [] + [Chunk(K_ESCAPE, [x, y])];
    DecodeChunksStep([], Chunk(K_ESCAPE, [x, y]));
    FeedAllStep(K_ESCAPE, NOTHING, [x], y);
    FeedAllStep(K_ESCAPE, NOTHING, [], x);
    assert [x] + [y] == [x, y] && [] + [x] == [x];
  }

  // ----- a wrong sequence number

  /** The break packet under the number of the packet before it: one bit of the
      sequence byte is wrong, 0x22 for 0x23. */
  const MISNUMBERED := Packet(2, BREAK_TYPE, [], false)

  /** The break packet's frame with that bit flipped. */
  function WrongNumber(): seq<Byte> {
    Frame(SAMPLE[3])[2 := ToChar(2)]
  }

  const SENT := SAMPLE + [MISNUMBERED]

  /** All packets arrive intact; before the break packet comes its damaged copy. */
  function WrongRun(): seq<Event> {
    [Intact(0), Intact(1), Intact(2), Damaged(4, WrongNumber()[3..]), Intact(3)]
  }

  lemma OneWrongBit()
    ensures OneBitApart(Frame(SAMPLE[3])[2], WrongNumber()[2])
    ensures Lead(MISNUMBERED) + WrongNumber()[3..] == WrongNumber()
  {
    var f := Frame(SAMPLE[3]);
    assert f[2] == 0x23 && WrongNumber()[2] == 0x22 && BitWeight(1);
    assert WrongNumber() == WrongNumber()[..3] + WrongNumber()[3..];
  }

  /** The block check gives the damaged frame away, too late for the rollback. */
  lemma WrongNumberRefused()
    ensures RejectedAt(AtType(MISNUMBERED), WrongNumber()[3..], 1)
  {
    var p, s := MISNUMBERED, WrongNumber();
    var c, c0 := Covered(p), Covered(SAMPLE[3]);
    assert c == [0x23, 0x22, BREAK_TYPE] && c0 == [0x23, 0x23, BREAK_TYPE];
    assert BlockCheck(Sum(c)) == 9 by { SumOfThree(0x23, 0x22, BREAK_TYPE); }
    assert BlockCheck(Sum(c0)) == 10 by { SumOfThree(0x23, 0x23, BREAK_TYPE); }
    assert |s| == 6 && s[..4] == [START_CHAR] + c && s[4] == ToChar(10);
    WrongCheck(p, p, s);
  }

  lemma SumOfThree(a: Byte, b: Byte, c: Byte)
    ensures Sum([a, b, c]) == a as int + b + c
  {
    assert [a, b, c][..2] == [a, b] && [a, b][..1] == [a] && [a][..0] == [];
    assert Sum([a]) == a && Sum([a, b]) == a as int + b;
  }

  lemma WrongRunLegal()
    ensures LegalRun(SENT, WrongRun())
  {
    WrongNumberRefused();
    var run := WrongRun();
    assert SENT[4] == MISNUMBERED;
    assert forall i :: 0 <= i < |SENT| ==> Legal(SENT[i]);
    assert Plausible(SENT, run[3]);
  }

  /** The two data packets of that run. */
  lemma WrongRunData(ps: seq<Packet>, run: seq<Event>, x: seq<Byte>, y: seq<Byte>)
    requires LegalRun(ps, run) && |run| >= 3 && run[0] == Intact(0) && run[1] == Intact(1) && run[2] == Intact(2)
    requires |ps| >= 3 && ps[0] == Packet(0, SEND_TYPE, [], false)
    requires ps[1] == Packet(1, DATA_TYPE, x, false) && ps[2] == Packet(2, DATA_TYPE, y, false)
    ensures BooksAt(ps, run, 3) == Ledger([Chunk(K_ESCAPE, x)], [Chunk(K_ESCAPE, y)], [], 2, K_ESCAPE, [])
  {
    var c := [Chunk(K_ESCAPE, x)];
    assert [] + c == c;
    SendBooked(ps, run);
    DataBooked(ps, run, 1, Ledger([], [], [], 0, K_ESCAPE, []), 1);
    DataBooked(ps, run, 2, Ledger([] + [], c, [], 1, K_ESCAPE, []), 2);
  }

  /** Two data packets, a damaged attempt under the number of the second, break. */
  lemma WrongRunBooks(ps: seq<Packet>, run: seq<Event>, tail: seq<Byte>, x: seq<Byte>, y: seq<Byte>)
    requires LegalRun(ps, run) && run == [Intact(0), Intact(1), Intact(2), Damaged(4, tail), Intact(3)]
    requires |ps| == 5 && ps[0] == Packet(0, SEND_TYPE, [], false) && ps[1] == Packet(1, DATA_TYPE, x, false)
    requires ps[2] == Packet(2, DATA_TYPE, y, false) && ps[3] == Packet(3, BREAK_TYPE, [], false) && ps[4].n == 2
    ensures Books(ps, run).committed == [Chunk(K_ESCAPE, x)] && Books(ps, run).pending == []
  {
    var c := [Chunk(K_ESCAPE, x)];
    assert c + [] == c;
    WrongRunData(ps, run, x, y);
    RolledBack(ps, run, 3, Ledger(c, [Chunk(K_ESCAPE, y)], [], 2, K_ESCAPE, []));
    BreakBooked(ps, run, 4, Ledger(c, [], [], 2, K_ESCAPE, []), 3);
    BooksWhole(ps, run, 5);
  }

  /** The sequence byte must arrive intact even where damage leaves it printable:
      every packet is accepted once, the only damage is one bit of a sequence
      byte, in a frame that is refused, and the file arrives without its last
      two bytes. */
  lemma WrongNumberLosesPacket(start: nat, initial: map<nat, Byte>, sent: seq<Byte>)
    ensures LegalRun(SENT, WrongRun()) && OneBitApart(Frame(SAMPLE[3])[2], WrongNumber()[2])
    ensures Line(SENT, WrongRun()) == Frame(SAMPLE[0]) + Frame(SAMPLE[1]) + Frame(SAMPLE[2]) + WrongNumber() + Frame(SAMPLE[3])
    ensures SendsFile(SAMPLE, K_ESCAPE, [0x41, 0x42, 0x43, 0x44])
    ensures Drive(POWER_ON, Line(SENT, WrongRun())).0.phase.Stopped?
    ensures var rx := Absorb(Fresh(start, initial, sent), Line(SENT, WrongRun()));
            rx.cur == Cursor(false, start + 2) && Stored(rx.memory, start, [0x41, 0x42])
  {
    SampleFile();
    WrongRunLegal();
    WrongRunLine();
    WrongRunBooks(SENT, WrongRun(), WrongNumber()[3..], [0x41, 0x42], [0x43, 0x44]);
    RunAccount(SENT, WrongRun());
    ReceiverRefinesLedger(Line(SENT, WrongRun()), start, initial, sent);
    var l := Account(Line(SENT, WrongRun()));
    OneChunkDecoded(l, 0x41, 0x42);
    OneWrongBit();
  }

  lemma WrongRunLine()
    requires LegalRun(SENT, WrongRun())
    ensures Line(SENT, WrongRun()) == Frame(SAMPLE[0]) + Frame(SAMPLE[1]) + Frame(SAMPLE[2]) + WrongNumber() + Frame(SAMPLE[3])
  {
    OneWrongBit();
    LineOfFive(SENT, WrongRun(), Frame(SAMPLE[0]), Frame(SAMPLE[1]), Frame(SAMPLE[2]), WrongNumber(), Frame(SAMPLE[3]));
  }

  lemma LineOfFive(ps: seq<Packet>, run: seq<Event>, a: seq<Byte>, b: seq<Byte>, c: seq<Byte>, d: seq<Byte>, e: seq<Byte>)
    requires LegalRun(ps, run) && |run| == 5
    requires forall i :: 0 <= i < 5 && (run[i].Damaged? || run[i].Intact?) ==> run[i].i < |ps|
    requires Arriving(ps, run[0]) == a && Arriving(ps, run[1]) == b && Arriving(ps, run[2]) == c
    requires Arriving(ps, run[3]) == d && Arriving(ps, run[4]) == e
    ensures Line(ps, run) == a + b + c + d + e
  {
    LineStep(ps, run, 0, []);
    assert [] + a == a;
    LineStep(ps, run, 1, a);
    LineStep(ps, run, 2, a + b);
    LineStep(ps, run, 3, a + b + c);
    LineStep(ps, run, 4, a + b + c + d);
    assert run[..5] == run;
  }

  // ----- bytes on the line

  lemma SumFour(a: Byte, b: Byte, c: Byte, d: Byte)
    ensures Sum([a, b, c]) == a as int + b + c && Sum([a, b, c, d]) == a as int + b + c + d
  {
    SumOfThree(a, b, c);
    assert [a, b, c, d][..3] == [a, b, c];
  }

  /** The plain answers to packet 1. */
  lemma AnswerBytes()
    ensures ReplyPacket(0x0D, 0x59, 1, []) == [0x01, 0x23, 0x21, 0x59, 0x3F, 0x0D]
    ensures ReplyPacket(0x0D, 0x4E, 1, []) == [0x01, 0x23, 0x21, 0x4E, 0x34, 0x0D]
  {
    SumOfThree(0x23, 0x21, 0x59);
    SumOfThree(0x23, 0x21, 0x4E);
    assert [ToChar(3), ToChar(1), 0x59] + [] == [0x23, 0x21, 0x59];
    assert [ToChar(3), ToChar(1), 0x4E] + [] == [0x23, 0x21, 0x4E];
  }

  /** Data packet 1 with "AB" as it is sent. */
  lemma SentBytes()
    ensures Frame(SAMPLE[1]) == [0x01, 0x25, 0x21, 0x44, 0x41, 0x42, 0x2D, 0x0D]
  {
    var s: seq<Byte> := [0x25, 0x21, 0x44, 0x41];
    SumFour(0x25, 0x21, 0x44, 0x41);
    SumOf(s, 0x42);
    assert Covered(SAMPLE[1]) == s + [0x42];
  }

  /** The packet is acknowledged byte for byte, and refused when a bit of its
      block check is wrong. */
  lemma BytesAnswered(start: nat, initial: map<nat, Byte>)
    ensures var rx := Fresh(start, initial, []);
            && Absorb(rx, [0x01, 0x25, 0x21, 0x44, 0x41, 0x42, 0x2D, 0x0D]).sent == [0x01, 0x23, 0x21, 0x59, 0x3F, 0x0D]
            && Absorb(rx, [0x01, 0x25, 0x21, 0x44, 0x41, 0x42, 0x2C, 0x0D]).sent == [0x01, 0x23, 0x21, 0x4E, 0x34, 0x0D]
  {
    SentBytes();
    AnswerBytes();
    var rx, p := Fresh(start, initial, []), SAMPLE[1];
    GoodCheck(rx, p);
    var s := Frame(p)[6 := 0x2C];
    assert s == [0x01, 0x25, 0x21, 0x44, 0x41, 0x42, 0x2C, 0x0D];
    assert OneBitApart(0x2D, 0x2C) by { assert BitWeight(1); }
    WrongBit(rx, p, 6, s);
    Unpadded(ReplyPacket(END_CHAR, ACK_TYPE, 1, []));
    Unpadded(ReplyPacket(END_CHAR, NACK_TYPE, 1, []));
  }

  lemma Unpadded(s: seq<Byte>)
    ensures [] + s == s
  {
  }

  lemma SaidPlainly(rx: Rx, kind: Byte, n: Byte)
    requires rx.padCount == 0 && rx.eol == END_CHAR
    ensures Say(rx, kind, n, []).sent == rx.sent + ReplyPacket(END_CHAR, kind, n, [])
  {
    assert Repeat(rx.padChar, 0) + ReplyPacket(END_CHAR, kind, n, []) == ReplyPacket(END_CHAR, kind, n, []);
  }

  /** One answer among silent actions, without padding. */
  lemma SentOnce(rx: Rx, t: seq<Action>, k: nat, kind: Byte, n: Byte)
    requires rx.padCount == 0 && rx.eol == END_CHAR
    requires k < |t| && (forall i :: 0 <= i < k ==> Unheard(t[i])) && (forall i :: k < i < |t| ==> t[i].Quiet?)
    requires if t[k].Accept? then t[k].kind != SEND_TYPE && kind == ACK_TYPE && n == t[k].n
             else t[k] == Reject(n) && kind == NACK_TYPE
    ensures PerformAll(rx, t).sent == rx.sent + ReplyPacket(END_CHAR, kind, n, [])
  {
    SpeaksOnce(rx, t, k);
    UnheardSendsNothing(rx, t[..k]);
    var rx1 := PerformAll(rx, t[..k]);
    SaidPlainly(rx1, kind, n);
    SaidPlainly(rx1.(cur := rx1.saved), kind, n);
  }

  lemma GoodCheck(rx: Rx, p: Packet)
    requires Legal(p) && p.kind == DATA_TYPE && rx.padCount == 0 && rx.eol == END_CHAR
    ensures Absorb(rx, Frame(p)).sent == rx.sent + ReplyPacket(END_CHAR, ACK_TYPE, p.n, [])
  {
    FrameAccepted(POWER_ON, p);
    var t := FrameActions(p);
    assert t[|t| - 1] == Accept(p.kind, p.n);
    SentOnce(rx, t, |t| - 1, ACK_TYPE, p.n);
  }

  lemma WrongBit(rx: Rx, p: Packet, i: nat, s: seq<Byte>)
    requires Legal(p) && OneBitDamage(p, i, s) && rx.padCount == 0 && rx.eol == END_CHAR
    ensures Absorb(rx, s).sent == rx.sent + ReplyPacket(END_CHAR, NACK_TYPE, p.n, [])
  {
    OneBitRejected(p, i, s);
    var k: nat :| RejectedAt(AtType(p), s[3..], k);
    assert s == Lead(p) + s[3..] by { LeadOfFrame(p); assert s == s[..3] + s[3..] && s[..3] == Frame(p)[..3]; }
    RefusedTail(rx, p, s[3..], k);
  }

  lemma RefusedTail(rx: Rx, p: Packet, tail: seq<Byte>, k: nat)
    requires Legal(p) && RejectedAt(AtType(p), tail, k) && rx.padCount == 0 && rx.eol == END_CHAR
    ensures Absorb(rx, Lead(p) + tail).sent == rx.sent + ReplyPacket(END_CHAR, NACK_TYPE, p.n, [])
  {
    DriveLead(POWER_ON, p);
    DriveConcat(POWER_ON, Lead(p), tail);
    RefusedNumber(AtType(p), tail, k);
    AfterRefusal(AtType(p), tail, k);
    SentOnce(rx, [Quiet, Quiet, Begin(p.n)] + Drive(AtType(p), tail).1, 3 + k, NACK_TYPE, p.n);
  }

  /** What the receiver offers when all thirteen parameters are given: packets of
      94, one second, no padding, CR, "#", no eighth-bit quoting, check type 1, no
      repeats, long packets of up to 94 * 95 + 94, no windows. */
  lemma OfferBytes()
    ensures Offered(13) == [0x7E, 0x21, 0x20, 0x40, 0x2D, 0x23, 0x4E, 0x31, 0x4E, 0x22, 0x20, 0x7E, 0x7E]
    ensures forall k :: 0 <= k <= 9 ==> Offered(k) == Offered(13)[..k]
    ensures forall k :: 10 <= k < SEND_DATA_SIZE ==> Offered(k) == Offered(13)
  {
  }

  // ----- what the command reports

  /** What `k_recv` returns. */
  function ReturnValue(o: Outcome): nat
    requires !o.Waiting?
  {
    match o
    case Received(n) => n
    case Interrupted => 0
  }

  /** How the download command ends: the file size it sets, the load address and
      the return code. */
  datatype Command = Pending | Ended(fileSize: nat, loadAddr: nat, rcode: int)

  function Report(o: Outcome, offset: nat): Command {
    if o.Waiting? then Pending
    else if offset == WORD - 1 then Ended(ReturnValue(o), 0, 1)
    else Ended(ReturnValue(o), offset, 0)
  }

  /** The end of `do_load_serial_bin`: whether it says that the download was
      aborted depends on the offset alone. */
  method LoadCommand(r: Receiver, offset: nat, input: seq<Byte>) returns (outcome: Outcome, command: Command)
    requires r.Valid() && offset < WORD
    modifies r, r.sendParms, r.packet
    ensures r.Valid() && r.State() == Absorb(Fresh(offset, old(r.memory), old(r.sent)), input)
    ensures outcome.Waiting? <==> !Drive(POWER_ON, input).0.phase.Stopped?
    ensures outcome.Interrupted? <==> Abort in Drive(POWER_ON, input).1
    ensures outcome.Received? ==> outcome.size == r.addr - offset
    ensures command == Report(outcome, offset)
  {
    r.binStart := offset;
    outcome := r.ReceiveFile(input);
    if outcome.Waiting? { return outcome, Pending; }
    var size := if outcome.Received? then outcome.size else 0;
    var addr := offset;   // load_serial_bin returns its argument
    var loadAddr, rcode := addr, 0;
    if addr == WORD - 1 {
      loadAddr, rcode := 0, 1;
    }
    command := Ended(size, loadAddr, rcode);
  }

  /** A caller can tell an interrupted download from a complete one if and only
      if the complete one brought at least one byte. */
  lemma AbortSeenIff(offset: nat, size: nat)
    ensures Report(Interrupted, offset) != Report(Received(size), offset) <==> size > 0
  {
  }

  /** Send-init and break: an empty file. */
  const EMPTY_FILE: seq<Packet> := [Packet(0, SEND_TYPE, [], false), Packet(1, BREAK_TYPE, [], false)]

  function EmptyRun(): seq<Event> {
    [Intact(0), Intact(1)]
  }

  lemma EmptyFileSent()
    ensures SendsFile(EMPTY_FILE, K_ESCAPE, [])
    ensures LegalRun(EMPTY_FILE, EmptyRun()) && Completed(EMPTY_FILE, EmptyRun()) && Track(EMPTY_FILE, EmptyRun()).kept
  {
    var run := EmptyRun();
    assert run[..1] == [Intact(0)];
    PatientOne([Intact(0)], run);
    PatientSenderLosesNothing(EMPTY_FILE, run);
    NoChunks(EMPTY_FILE);
  }

  lemma NoChunks(ps: seq<Packet>)
    requires |ps| == 2 && ps[0].kind != DATA_TYPE && ps[1].kind != DATA_TYPE
    ensures Chunks(ps, 2) == []
  {
    assert Chunks(ps, 1) == Chunks(ps, 0) == [];
  }

  lemma PatientOne(one: seq<Event>, two: seq<Event>)
    requires one == [Intact(0)] && two == [Intact(0), Intact(1)]
    ensures Patient(two)
  {
    assert one[..0] == [] && Patient([]) && Latest([]) == (-1, true);
    assert Next(Latest([]), 0);
    assert Patient(one) && Latest(one) == (0, true);
    assert two[..1] == one && Next(Latest(one), 1);
  }

  /** ^C while the receiver waits, and an empty file that arrives completely, give
      the caller the same answer. */
  method AbortLooksEmpty(offset: nat) returns (interrupted: Command, empty: Command)
    requires offset < WORD
    ensures interrupted == empty == Report(Interrupted, offset)
  {
    var first := new Receiver(offset, map[]);
    var outcome;
    EtxAborts();
    outcome, interrupted := LoadCommand(first, offset, [ETX_CHAR]);
    EmptyFileSent();
    var second := new Receiver(offset, map[]);
    var input := Frame(EMPTY_FILE[0]) + Frame(EMPTY_FILE[1]);
    EmptyRunLine();
    ListenIsTrack(EMPTY_FILE, EmptyRun(), Fresh(offset, second.memory, second.sent));
    outcome := LoadSerialBin(second, offset, input, EMPTY_FILE, EmptyRun(), K_ESCAPE, []);
    empty := Report(outcome, offset);
  }

  lemma EtxAborts()
    ensures Abort in Drive(POWER_ON, [ETX_CHAR]).1
  {
    DriveStep(POWER_ON, [], ETX_CHAR, POWER_ON, []);
    assert [] + [ETX_CHAR] == [ETX_CHAR];
    assert ([] + [Abort])[0] == Abort;
  }

  lemma EmptyRunLine()
    requires LegalRun(EMPTY_FILE, EmptyRun())
    ensures Line(EMPTY_FILE, EmptyRun()) == Frame(EMPTY_FILE[0]) + Frame(EMPTY_FILE[1])
  {
    var run := EmptyRun();
    assert run[..1][..0] == [];
    assert Line(EMPTY_FILE, run[..1]) == [] + Frame(EMPTY_FILE[0]);
  }
}
