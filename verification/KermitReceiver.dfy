/** The receive loop `k_recv` and the globals it works on, as a class, proved
    against a byte-by-byte specification: the control machine of KermitWire
    issues actions and `Perform` says what each does to the receiver's data.
 */
module KermitReceiver {
  import opened Arithmetic
  import opened KermitWire
  import opened KermitData
  import opened KermitDamage

  const SEND_DATA_SIZE := 20

  /** Write position and pending escape, the part that is checkpointed. */
  datatype Cursor = Cursor(escape: bool, addr: nat)

  datatype Rx = Rx(
    quote: Byte, eol: Byte, padCount: nat, padChar: Byte,
    parms: seq<Byte>,
    cur: Cursor, saved: Cursor, lastN: int,
    memory: map<nat, Byte>,
    sent: seq<Byte>)

  function Fresh(start: nat, memory: map<nat, Byte>, sent: seq<Byte>): Rx {
    Rx(K_ESCAPE, END_CHAR, 0, 0, [], Cursor(false, start), Cursor(false, start), -1, memory, sent)
  }

  // ----- replies

  function Repeat(b: Byte, count: nat): (r: seq<Byte>)
    ensures |r| == count && forall i :: 0 <= i < count ==> r[i] == b
  {
    seq(count, i => b)
  }

  /** A reply packet; a NUL end of line terminates the C string and is not sent. */
  function ReplyPacket(eol: Byte, kind: Byte, n: Byte, parms: seq<Byte>): seq<Byte> {
    var covered := [ToChar(|parms| + 3), ToChar(n), kind] + parms;
    [START_CHAR] + covered + [ToChar(BlockCheck(Sum(covered)))] + (if eol == 0 then [] else [eol])
  }

  /** A reply as it goes out, padding first. */
  function Reply(rx: Rx, kind: Byte, n: Byte, parms: seq<Byte>): seq<Byte> {
    Repeat(rx.padChar, rx.padCount) + ReplyPacket(rx.eol, kind, n, parms)
  }

  /** What the receiver answers to the first nine send-init parameters. */
  const OFFER: seq<Byte> :=
    [ToChar(94), ToChar(1), ToChar(0), 0x40, ToChar(END_CHAR), 0x23, 0x4E, 0x31, 0x4E]

  /** ... and to the capabilities field. */
  const CAPABILITIES: seq<Byte> := [ToChar(2), ToChar(0), ToChar(94), ToChar(94)]

  /** Number of parameter bytes considered; a completely filled buffer gives up its last byte. */
  function Considered(count: nat): nat {
    if count == SEND_DATA_SIZE - 1 then count - 1 else count
  }

  function Offered(count: nat): seq<Byte> {
    OFFER[..if count < 9 then count else 9] + if count < 10 then [] else CAPABILITIES
  }

  /** Takes over the sender's parameters, defaults for those it did not give. */
  function Negotiate(rx: Rx): Rx {
    var k := Considered(|rx.parms|);
    rx.(padCount := if k < 3 then 0 else UnToChar(rx.parms[2]),
        padChar := if k < 4 then 0 else Ktrans(rx.parms[3]),
        eol := if k < 5 then END_CHAR else UnToChar(rx.parms[4]),
        quote := if k < 6 then K_ESCAPE else rx.parms[5])
  }

  function Say(rx: Rx, kind: Byte, n: Byte, parms: seq<Byte>): Rx {
    rx.(sent := rx.sent + Reply(rx, kind, n, parms), parms := [])
  }

  /** The receiver's own packets follow the format it demands: with the default
      end of line, any acknowledgement would pass the same checks at the peer. */
  lemma RepliesWellFormed(c: Control, kind: Byte, n: Byte, parms: seq<Byte>)
    requires c.phase.AwaitStart? && Legal(Packet(n, kind, parms, false))
    ensures var s := ReplyPacket(END_CHAR, kind, n, parms);
            Drive(c, s).1[|s| - 1] == Accept(kind, n) &&
            forall i :: 0 <= i < |s| ==> !Drive(c, s).1[i].Reject?
  {
    var p := Packet(n, kind, parms, false);
    assert ReplyPacket(END_CHAR, kind, n, parms) == Frame(p);
    FrameAccepted(c, p);
  }

  // ----- the data half of the receiver

  function StoreByte(rx: Rx, b: Byte): Rx {
    if rx.cur.escape then
      rx.(memory := rx.memory[rx.cur.addr := Ktrans(b)], cur := Cursor(false, rx.cur.addr + 1))
    else if b == rx.quote then
      rx.(cur := rx.cur.(escape := true))
    else
      rx.(memory := rx.memory[rx.cur.addr := b], cur := rx.cur.(addr := rx.cur.addr + 1))
  }

  function Perform(rx: Rx, a: Action): Rx {
    match a
    case Quiet => rx
    case Abort => rx
    case Begin(n) =>
      if n == rx.lastN then rx.(cur := rx.saved) else rx.(lastN := n, saved := rx.cur)
    case Payload(kind, b) =>
      if kind == DATA_TYPE then StoreByte(rx, b)
      else if kind == SEND_TYPE && |rx.parms| < SEND_DATA_SIZE - 1 then rx.(parms := rx.parms + [b])
      else rx
    case Reject(n) => Say(rx.(cur := rx.saved), NACK_TYPE, n, [])
    case Accept(kind, n) =>
      if kind == SEND_TYPE then Say(Negotiate(rx), ACK_TYPE, n, Offered(Considered(|rx.parms|)))
      else Say(rx, ACK_TYPE, n, [])
  }

  function PerformAll(rx: Rx, actions: seq<Action>): Rx {
    if actions == [] then rx
    else Perform(PerformAll(rx, actions[..|actions| - 1]), actions[|actions| - 1])
  }

  lemma {:induction false} PerformConcat(rx: Rx, s: seq<Action>, t: seq<Action>)
    ensures PerformAll(rx, s + t) == PerformAll(PerformAll(rx, s), t)
    decreases |t|
  {
    if t == [] {
      assert s + t == s;
    } else {
      PerformConcat(rx, s, t[..|t| - 1]);
      assert (s + t)[..|s + t| - 1] == s + t[..|t| - 1];
    }
  }

  /** Everything a byte string does to an idle receiver. */
  function Absorb(rx: Rx, s: seq<Byte>): Rx {
    PerformAll(rx, Drive(POWER_ON, s).1)
  }

  /** After the first `pos` bytes of `input`, control is in `c` and data in `rx`. */
  ghost predicate At(input: seq<Byte>, pos: nat, c: Control, rx0: Rx, rx: Rx) {
    && pos <= |input|
    && Drive(POWER_ON, input[..pos]).0 == c
    && Absorb(rx0, input[..pos]) == rx
  }

  lemma AtStep(input: seq<Byte>, pos: nat, c: Control, rx0: Rx, rx: Rx)
    requires At(input, pos, c, rx0, rx) && pos < |input|
    ensures var (c', a) := Advance(c, input[pos]); At(input, pos + 1, c', rx0, Perform(rx, a))
  {
    var s, b := input[..pos], input[pos];
    var actions := Drive(POWER_ON, s).1;
    DriveStep(POWER_ON, s, b, c, actions);
    assert s + [b] == input[..pos + 1];
    assert (actions + [Advance(c, b).1])[..|actions|] == actions;
  }

  lemma AtStop(input: seq<Byte>, pos: nat, c: Control, rx0: Rx, rx: Rx)
    requires At(input, pos, c, rx0, rx) && c.phase.Stopped?
    ensures At(input, |input|, c, rx0, rx)
    decreases |input| - pos
  {
    if pos < |input| {
      AtStep(input, pos, c, rx0, rx);
      AtStop(input, pos + 1, c, rx0, rx);
    }
  }

  lemma Ending(input: seq<Byte>, pos: nat, c: Control, rx0: Rx, rx: Rx)
    requires At(input, pos, c, rx0, rx) && pos == |input|
    ensures Drive(POWER_ON, input).0 == c && Absorb(rx0, input) == rx
    ensures !c.phase.Stopped? ==> Abort !in Drive(POWER_ON, input).1
  {
    assert input[..pos] == input;
    if !c.phase.Stopped? {
      RunningUnaborted(POWER_ON, input);
    }
  }

  /** A receiver that is still running has not been interrupted. */
  lemma {:induction false} RunningUnaborted(c: Control, s: seq<Byte>)
    requires !Drive(c, s).0.phase.Stopped?
    ensures Abort !in Drive(c, s).1
    decreases |s|
  {
    if s != [] {
      RunningUnaborted(c, s[..|s| - 1]);
    }
  }

  lemma AbortSeen(input: seq<Byte>, k: nat)
    requires k < |input| && Drive(POWER_ON, input[..k]).0.phase.AwaitStart? && input[k] == ETX_CHAR
    ensures Abort in Drive(POWER_ON, input).1
  {
    DrivePrefix(POWER_ON, input, k);
  }

  /** Once a break packet has ended the transfer, nothing can interrupt it. */
  lemma NoAbort(input: seq<Byte>, pos: nat, c: Control)
    requires 0 < pos <= |input| && input[pos - 1] == END_CHAR
    requires Drive(POWER_ON, input[..pos - 1]).0 == c && c.phase.AwaitEnd? && c.kind == BREAK_TYPE
    ensures Abort !in Drive(POWER_ON, input).1
  {
    var s := input[..pos - 1];
    RunningUnaborted(POWER_ON, s);
    DriveStep(POWER_ON, s, END_CHAR, c, Drive(POWER_ON, s).1);
    assert s + [END_CHAR] == input[..pos];
    DriveConcat(POWER_ON, input[..pos], input[pos..]);
    assert input == input[..pos] + input[pos..];
    DriveIdle(Advance(c, END_CHAR).0, input[pos..]);
  }

  lemma {:induction false} CursorAbove(rx: Rx, start: nat, actions: seq<Action>)
    requires start <= rx.cur.addr && start <= rx.saved.addr
    ensures start <= PerformAll(rx, actions).cur.addr && start <= PerformAll(rx, actions).saved.addr
    decreases |actions|
  {
    if actions != [] {
      CursorAbove(rx, start, actions[..|actions| - 1]);
    }
  }

  // ----- the receive loop

  /** How reading one piece of a packet ended: complete, refused, or the line
      went silent. */
  datatype Progress = Complete | Refused | Silent

  /** What `k_recv` returns; `Silent` input leaves it waiting in getc. */
  datatype Outcome = Received(size: nat) | Interrupted | Waiting

  class Receiver {
    var hisEol: Byte
    var hisPadCount: nat
    var hisPadChar: Byte
    var hisQuote: Byte
    var escape: bool
    var escapeSaved: bool
    var addr: nat
    var addrSaved: nat
    var binStart: nat
    var memory: map<nat, Byte>
    var lastN: int
    const sendParms: array<Byte>
    var sendPtr: nat
    const packet: array<Byte>   // the a_b buffer replies are built in
    var sent: seq<Byte>

    ghost predicate Valid()
      reads this
    {
      && sendParms.Length == SEND_DATA_SIZE
      && packet.Length == 24
      && sendParms != packet
      && sendPtr < SEND_DATA_SIZE
    }

    ghost function State(): Rx
      requires Valid()
      reads this, sendParms
    {
      Rx(hisQuote, hisEol, hisPadCount, hisPadChar, sendParms[..sendPtr],
         Cursor(escape, addr), Cursor(escapeSaved, addrSaved), lastN, memory, sent)
    }

    constructor (start: nat, initial: map<nat, Byte>)
      ensures Valid() && fresh(sendParms) && fresh(packet)
      ensures binStart == start && memory == initial && sent == []
    {
      binStart, memory, sent := start, initial, [];
      hisEol, hisPadCount, hisPadChar, hisQuote := 0, 0, 0, 0;
      escape, escapeSaved, addr, addrSaved, lastN, sendPtr := false, false, 0, 0, 0, 0;
      sendParms := new Byte[SEND_DATA_SIZE](i => 0);
      packet := new Byte[24](i => 0);
    }

    method DataInit()
      requires Valid()
      modifies this`escape, this`addr
      ensures !escape && addr == binStart
    {
      escape := false;
      addr := binStart;
    }

    method DataSave()
      requires Valid()
      modifies this`escapeSaved, this`addrSaved
      ensures Valid() && State() == old(State().(saved := State().cur))
    {
      escapeSaved := escape;
      addrSaved := addr;
    }

    method DataRestore()
      requires Valid()
      modifies this`escape, this`addr
      ensures Valid() && State() == old(State().(cur := State().saved))
    {
      escape := escapeSaved;
      addr := addrSaved;
    }

    method BinDataChar(b: Byte)
      requires Valid()
      modifies this`memory, this`addr
      ensures memory == old(memory)[old(addr) := b] && addr == old(addr) + 1
    {
      memory := memory[addr := b];
      addr := addr + 1;
    }

    method DataChar(b: Byte)
      requires Valid()
      modifies this`memory, this`addr, this`escape
      ensures Valid() && State() == StoreByte(old(State()), b)
    {
      if escape {
        BinDataChar(Ktrans(b));
        escape := false;
      } else {
        if b == hisQuote {
          escape := true;
        } else {
          BinDataChar(b);
        }
      }
    }

    /** Sends `packet[..count]` up to its NUL after the padding. */
    method SendPacket(count: nat)
      requires Valid() && count < packet.Length
      requires packet[count] == 0 && forall i :: 0 <= i < count ==> packet[i] != 0
      modifies this`sent
      ensures sent == old(sent) + (Repeat(hisPadChar, hisPadCount) + packet[..count])
    {
      var i := 0;
      while i < hisPadCount
        invariant i <= hisPadCount
        invariant sent == old(sent) + Repeat(hisPadChar, i)
      {
        sent := sent + [hisPadChar];
        i := i + 1;
        assert Repeat(hisPadChar, i) == Repeat(hisPadChar, i - 1) + [hisPadChar];
      }
      ghost var padded := sent;
      i := 0;
      while packet[i] != 0
        invariant i <= count
        invariant sent == padded + packet[..i]
        decreases count - i
      {
        sent := sent + [packet[i]];
        i := i + 1;
      }
    }

    /** `send_ack` and `send_nack`, which differ in the type only. */
    method SendSimple(kind: Byte, n: Byte)
      requires Valid() && kind != 0 && n < 224
      modifies this`sent, packet
      ensures Valid() && sent == old(State().sent + Reply(State(), kind, n, []))
    {
      packet[0] := START_CHAR;
      packet[1] := ToChar(3);
      packet[2] := ToChar(n);
      packet[3] := kind;
      ghost var covered := [ToChar(3), ToChar(n), kind];
      assert packet[..4] == [START_CHAR] + covered;
      var count := PutTrailer(3, covered);
      assert covered + [] == covered;
      SendPacket(count);
    }

    /** Appends the answer to parameter `j` to the reply under construction. */
    method Answer(last: nat, ghost j: nat, b: Byte) returns (length: nat)
      requires Valid() && last == 3 + j && j < 9 && b == OFFER[j]
      requires packet[4..last + 1] == Offered(j)
      modifies packet
      ensures length == 3 + (j + 1)
      ensures packet[4..length + 1] == Offered(j + 1)
    {
      length := last + 1;
      packet[length] := b;
      assert OFFER[..j + 1] == OFFER[..j] + [OFFER[j]];
      assert packet[4..length + 1] == packet[4..last + 1] + [b];
    }

    /** Reads the sender's parameters one by one and writes the answer to each
        into the reply; `bytes` is how many there are. */
    method AnswerParameters(bytes: nat) returns (length: nat)
      requires Valid() && bytes <= sendPtr
      modifies this`hisEol, this`hisPadCount, this`hisPadChar, this`hisQuote, packet
      ensures hisPadCount == if bytes < 3 then 0 else UnToChar(sendParms[2])
      ensures hisPadChar == if bytes < 4 then 0 else Ktrans(sendParms[3])
      ensures hisEol == if bytes < 5 then END_CHAR else UnToChar(sendParms[4])
      ensures hisQuote == if bytes < 6 then K_ESCAPE else sendParms[5]
      ensures length == 3 + |Offered(bytes)| && packet[4..length + 1] == Offered(bytes)
    {
      hisEol := END_CHAR;
      hisPadCount := 0;
      hisPadChar := 0;
      hisQuote := K_ESCAPE;
      length := 3;
      assert packet[4..4] == Offered(0);
      if bytes <= 0 { return; }
      length := Answer(length, 0, ToChar(94));   // MAXL
      if bytes <= 1 { return; }
      length := Answer(length, 1, ToChar(1));   // TIME
      if bytes <= 2 { return; }
      hisPadCount := UnToChar(sendParms[2]);
      length := Answer(length, 2, ToChar(0));   // NPAD
      if bytes <= 3 { return; }
      hisPadChar := Ktrans(sendParms[3]);
      length := Answer(length, 3, 0x40);   // PADC
      if bytes <= 4 { return; }
      hisEol := UnToChar(sendParms[4]);
      length := Answer(length, 4, ToChar(END_CHAR));   // EOL
      if bytes <= 5 { return; }
      hisQuote := sendParms[5];
      length := Answer(length, 5, 0x23);   // QCTL
      length := AnswerOptions(bytes, length);
    }

    /** The parameters the receiver declines or answers without remembering. */
    method AnswerOptions(bytes: nat, last: nat) returns (length: nat)
      requires Valid() && 6 <= bytes && last == 9 && packet[4..last + 1] == Offered(6)
      modifies packet
      ensures length == 3 + |Offered(bytes)| && packet[4..length + 1] == Offered(bytes)
    {
      length := last;
      if bytes <= 6 { return; }
      length := Answer(length, 6, 0x4E);   // QBIN
      if bytes <= 7 { return; }
      length := Answer(length, 7, 0x31);   // CHKT
      if bytes <= 8 { return; }
      length := Answer(length, 8, 0x4E);   // REPT
      if bytes <= 9 { return; }
      packet[length + 1] := ToChar(2);   // CAPAS
      packet[length + 2] := ToChar(0);
      packet[length + 3] := ToChar(94);
      packet[length + 4] := ToChar(94);
      length := length + 4;
      assert packet[13..length + 1] == CAPABILITIES;
      assert packet[4..length + 1] == packet[4..13] + packet[13..length + 1];
    }

    lemma OfferedNonzero(count: nat)
      ensures |Offered(count)| <= 13 && forall i :: 0 <= i < |Offered(count)| ==> Offered(count)[i] != 0
    {
    }

    /** Puts the start character and the covered header before the parameters. */
    method PutHeader(length: nat, n: Byte, ghost parms: seq<Byte>)
      requires Valid() && |parms| <= 13 && length == 3 + |parms|
      requires packet[4..length + 1] == parms
      modifies packet
      ensures packet[..length + 1] == [START_CHAR] + [ToChar(length), ToChar(n), ACK_TYPE] + parms
    {
      packet[0] := START_CHAR;
      packet[1] := ToChar(length);
      packet[2] := ToChar(n);
      packet[3] := ACK_TYPE;
      assert packet[4..length + 1] == parms;
      assert packet[..4] == [START_CHAR] + [ToChar(length), ToChar(n), ACK_TYPE];
      assert packet[..length + 1] == packet[..4] + packet[4..length + 1];
    }

    /** Puts the block check and the end of line after the covered bytes. */
    method PutTrailer(last: nat, ghost covered: seq<Byte>) returns (count: nat)
      requires Valid() && 3 <= |covered| <= 16 && last == |covered|
      requires packet[..last + 1] == [START_CHAR] + covered
      requires forall i :: 0 <= i < |covered| ==> covered[i] != 0
      modifies packet
      ensures count < packet.Length && packet[count] == 0
      ensures forall i :: 0 <= i < count ==> packet[i] != 0
      ensures packet[..count] == [START_CHAR] + covered + [ToChar(BlockCheck(Sum(covered)))] +
                                 (if hisEol == 0 then [] else [hisEol])
    {
      ghost var body := packet[..last + 1];
      assert forall i :: 0 <= i <= last ==> body[i] != 0;
      var length := last + 1;
      packet[length] := 0;
      assert packet[1..length] == body[1..] == covered;
      var check := Chk1(packet[1..length]);
      packet[length] := ToChar(check);
      length := length + 1;
      packet[length] := hisEol;
      packet[length + 1] := 0;
      assert forall i :: 0 <= i <= last ==> packet[i] == body[i];
      assert packet[..length] == body + [ToChar(check)];
      count := if hisEol == 0 then length else length + 1;
    }

    /** Wraps the parameters in `packet[4..length + 1]` into an acknowledgement and sends it. */
    method SendParameters(length: nat, n: Byte, ghost parms: seq<Byte>)
      requires Valid() && n < 224 && |parms| <= 13 && length == 3 + |parms|
      requires packet[4..length + 1] == parms && forall i :: 0 <= i < |parms| ==> parms[i] != 0
      modifies this`sent, packet
      ensures sent == old(sent) + (Repeat(hisPadChar, hisPadCount) + ReplyPacket(hisEol, ACK_TYPE, n, parms))
    {
      PutHeader(length, n, parms);
      ghost var covered := [ToChar(length), ToChar(n), ACK_TYPE] + parms;
      assert [START_CHAR] + [ToChar(length), ToChar(n), ACK_TYPE] + parms == [START_CHAR] + covered;
      var count := PutTrailer(length, covered);
      SendPacket(count);
    }

    method HandleSendPacket(n: Byte)
      requires Valid() && n < 224
      modifies this`hisEol, this`hisPadCount, this`hisPadChar, this`hisQuote, this`sendPtr, this`sent, packet
      ensures Valid()
      ensures State().(parms := []) ==
              old(Say(Negotiate(State()), ACK_TYPE, n, Offered(Considered(|State().parms|))))
    {
      ghost var rx := State();
      if sendPtr == SEND_DATA_SIZE - 1 {
        sendPtr := sendPtr - 1;
      }
      ghost var k := Considered(|rx.parms|);
      var length := AnswerParameters(sendPtr);
      assert State().(parms := rx.parms) == Negotiate(rx);
      OfferedNonzero(k);
      SendParameters(length, n, Offered(k));
    }

    /** The state when reading a piece of a packet stops at `pos`. */
    ghost predicate Stands(progress: Progress, input: seq<Byte>, pos: nat, c: Control, rx0: Rx, n: Byte)
      requires Valid()
      reads this, sendParms
    {
      match progress
      case Complete => At(input, pos, c, rx0, State()) && c.n == n
      case Refused =>
        && 0 < pos <= |input|
        && At(input, pos - 1, c, rx0, State())
        && Advance(c, input[pos - 1]) == Refuse(c)
        && c.n == n
      case Silent => pos == |input| && At(input, pos, c, rx0, State()) && !c.phase.Stopped?
    }

    /** A new number checkpoints the download, a repeated one rolls it back. */
    method CheckSequence(n: Byte)
      requires Valid()
      modifies this`escape, this`addr, this`escapeSaved, this`addrSaved, this`lastN
      ensures Valid() && State() == Perform(old(State()), Begin(n))
    {
      if n == lastN {
        DataRestore();
      } else {
        lastN := n;
        DataSave();
      }
    }

    /** Length and sequence number. */
    method GetLead(input: seq<Byte>, from: nat, lastSeen: Byte, ghost c0: Control, ghost rx0: Rx)
        returns (progress: Progress, pos: nat, sum: nat, length: int, n: Byte, ghost c: Control)
      requires Valid() && lastSeen < 224
      requires At(input, from, c0, rx0, State()) && c0 == Control(AwaitLength, 0, 0, lastSeen, 0)
      modifies this`escape, this`addr, this`escapeSaved, this`addrSaved, this`lastN
      ensures Valid() && from <= pos <= |input| && n < 224
      ensures Stands(progress, input, pos, c, rx0, n)
      ensures progress.Complete? ==> c == Control(AwaitType, sum, length, n, 0)
    {
      pos, sum, length, n, c := from, 0, 0, lastSeen, c0;
      if pos == |input| { return Silent, pos, sum, length, n, c; }
      var newChar := input[pos];
      pos := pos + 1;
      if newChar < SPACE { return Refused, pos, sum, length, n, c; }
      AtStep(input, pos - 1, c, rx0, State());
      sum := sum + newChar;
      length := UnToChar(newChar);
      c := Control(AwaitSeq, sum, length, n, 0);
      progress, pos, sum, length, n, c := GetSequence(input, pos, sum, length, n, c, rx0);
    }

    method GetSequence(input: seq<Byte>, from: nat, sumIn: nat, lengthIn: int, lastSeen: Byte, ghost c0: Control, ghost rx0: Rx)
        returns (progress: Progress, pos: nat, sum: nat, length: int, n: Byte, ghost c: Control)
      requires Valid() && lastSeen < 224
      requires At(input, from, c0, rx0, State()) && c0 == Control(AwaitSeq, sumIn, lengthIn, lastSeen, 0)
      modifies this`escape, this`addr, this`escapeSaved, this`addrSaved, this`lastN
      ensures Valid() && from <= pos <= |input| && n < 224
      ensures Stands(progress, input, pos, c, rx0, n)
      ensures progress.Complete? ==> c == Control(AwaitType, sum, length, n, 0)
    {
      pos, sum, length, n, c := from, sumIn, lengthIn, lastSeen, c0;
      if pos == |input| { return Silent, pos, sum, length, n, c; }
      var newChar := input[pos];
      pos := pos + 1;
      if newChar < SPACE { return Refused, pos, sum, length, n, c; }
      AtStep(input, pos - 1, c, rx0, State());
      sum := sum + newChar;
      n := UnToChar(newChar);
      length := length - 1;
      CheckSequence(n);
      c := Control(AwaitType, sum, length, n, 0);
      progress := Complete;
    }

    method GetHeaderCheck(input: seq<Byte>, from: nat, sumIn: nat, length: int, n: Byte, kind: Byte,
                          ghost c0: Control, ghost rx0: Rx)
        returns (progress: Progress, pos: nat, sum: nat, ghost c: Control)
      requires Valid()
      requires At(input, from, c0, rx0, State()) && c0 == Control(AwaitHeaderCheck, sumIn, length, n, kind)
      ensures from <= pos <= |input|
      ensures Stands(progress, input, pos, c, rx0, n)
      ensures progress.Complete? ==> c == Control(Body, sum, length, n, kind)
    {
      pos, sum, c := from, sumIn, c0;
      if pos == |input| { return Silent, pos, sum, c; }
      var newChar := input[pos];
      pos := pos + 1;
      if newChar < SPACE { return Refused, pos, sum, c; }
      if newChar != ToChar(BlockCheck(sum)) { return Refused, pos, sum, c; }
      AtStep(input, pos - 1, c, rx0, State());
      sum := sum + newChar;
      c := Control(Body, sum, length, n, kind);
      progress := Complete;
    }

    /** The extended length of a long packet and its header check. */
    method GetExtension(input: seq<Byte>, from: nat, sumIn: nat, n: Byte, kind: Byte, ghost c0: Control, ghost rx0: Rx)
        returns (progress: Progress, pos: nat, sum: nat, length: int, ghost c: Control)
      requires Valid()
      requires At(input, from, c0, rx0, State()) && c0 == Control(AwaitLenHi, sumIn, -2, n, kind)
      ensures from <= pos <= |input|
      ensures Stands(progress, input, pos, c, rx0, n)
      ensures progress.Complete? ==> c == Control(Body, sum, length, n, kind)
    {
      pos, sum, length, c := from, sumIn, -2, c0;
      if pos == |input| { return Silent, pos, sum, length, c; }
      var newChar := input[pos];
      pos := pos + 1;
      if newChar < SPACE { return Refused, pos, sum, length, c; }
      AtStep(input, pos - 1, c, rx0, State());
      sum := sum + newChar;
      var lenHi := UnToChar(newChar);
      c := Control(AwaitLenLo, sum, lenHi as int * 95, n, kind);
      progress, pos, sum, length, c := GetLowLength(input, pos, sum, lenHi, n, kind, c, rx0);
    }

    /** The low byte of the extended length and the header check. */
    method GetLowLength(input: seq<Byte>, from: nat, sumIn: nat, lenHi: Byte, n: Byte, kind: Byte, ghost c0: Control, ghost rx0: Rx)
        returns (progress: Progress, pos: nat, sum: nat, length: int, ghost c: Control)
      requires Valid()
      requires At(input, from, c0, rx0, State()) && c0 == Control(AwaitLenLo, sumIn, lenHi as int * 95, n, kind)
      ensures from <= pos <= |input|
      ensures Stands(progress, input, pos, c, rx0, n)
      ensures progress.Complete? ==> c == Control(Body, sum, length, n, kind)
    {
      pos, sum, length, c := from, sumIn, -2, c0;
      if pos == |input| { return Silent, pos, sum, length, c; }
      var newChar := input[pos];
      pos := pos + 1;
      if newChar < SPACE { return Refused, pos, sum, length, c; }
      AtStep(input, pos - 1, c, rx0, State());
      sum := sum + newChar;
      var lenLo := UnToChar(newChar);
      length := lenHi as int * 95 + lenLo;
      c := Control(AwaitHeaderCheck, sum, length, n, kind);
      progress, pos, sum, c := GetHeaderCheck(input, pos, sum, length, n, kind, c, rx0);
    }

    /** The packet type, and the extension if the length byte was zero. */
    method GetType(input: seq<Byte>, from: nat, sumIn: nat, lengthIn: int, n: Byte, ghost c0: Control, ghost rx0: Rx)
        returns (progress: Progress, pos: nat, sum: nat, length: int, kind: Byte, ghost c: Control)
      requires Valid()
      requires At(input, from, c0, rx0, State()) && c0 == Control(AwaitType, sumIn, lengthIn, n, 0)
      ensures from <= pos <= |input|
      ensures Stands(progress, input, pos, c, rx0, n)
      ensures progress.Complete? ==> c == Control(Body, sum, length, n, kind)
    {
      pos, sum, length, kind, c := from, sumIn, lengthIn, 0, c0;
      if pos == |input| { return Silent, pos, sum, length, kind, c; }
      var newChar := input[pos];
      pos := pos + 1;
      if newChar < SPACE { return Refused, pos, sum, length, kind, c; }
      AtStep(input, pos - 1, c, rx0, State());
      sum := sum + newChar;
      kind := newChar;
      length := length - 1;
      c := Control(if length == -2 then AwaitLenHi else Body, sum, length, n, kind);
      progress := Complete;
      if length == -2 {
        progress, pos, sum, length, c := GetExtension(input, pos, sum, n, kind, c, rx0);
      }
    }

    /** Hands one data byte on according to the packet type. */
    method TakeByte(kind: Byte, b: Byte)
      requires Valid()
      modifies this`memory, this`addr, this`escape, this`sendPtr, sendParms
      ensures Valid() && State() == Perform(old(State()), Payload(kind, b))
    {
      if kind == DATA_TYPE {
        DataChar(b);
      } else if kind == SEND_TYPE {
        sendParms[sendPtr] := b;
        sendPtr := sendPtr + 1;
        if sendPtr >= SEND_DATA_SIZE {
          sendPtr := sendPtr - 1;
        }
        assert old(sendPtr) < SEND_DATA_SIZE - 1 ==> sendParms[..sendPtr] == old(sendParms[..sendPtr]) + [b];
        assert old(sendPtr) == SEND_DATA_SIZE - 1 ==> sendParms[..sendPtr] == old(sendParms[..sendPtr]);
      }
    }

    /** The data and the block check. */
    method GetBody(input: seq<Byte>, from: nat, sumIn: nat, lengthIn: int, n: Byte, kind: Byte,
                   ghost c0: Control, ghost rx0: Rx)
        returns (progress: Progress, pos: nat, ghost c: Control)
      requires Valid()
      requires At(input, from, c0, rx0, State()) && c0 == Control(Body, sumIn, lengthIn, n, kind)
      modifies this`memory, this`addr, this`escape, this`sendPtr, sendParms
      ensures Valid() && from <= pos <= |input|
      ensures Stands(progress, input, pos, c, rx0, n)
      ensures progress.Complete? ==> c.phase.AwaitEnd? && c.kind == kind
    {
      var sum: nat, length: int := sumIn, lengthIn;
      pos, c := from, c0;
      while length > 1
        invariant Valid() && from <= pos <= |input|
        invariant c == Control(Body, sum, length, n, kind) && At(input, pos, c, rx0, State())
      {
        progress, pos, sum, length, c := GetDataByte(input, pos, sum, length, n, kind, c, rx0);
        if !progress.Complete? { return; }
      }
      progress, pos, c := GetBlockCheck(input, pos, sum, length, n, kind, c, rx0);
    }

    /** One byte of the data. */
    method GetDataByte(input: seq<Byte>, from: nat, sumIn: nat, lengthIn: int, n: Byte, kind: Byte,
                       ghost c0: Control, ghost rx0: Rx)
        returns (progress: Progress, pos: nat, sum: nat, length: int, ghost c: Control)
      requires Valid() && lengthIn > 1
      requires At(input, from, c0, rx0, State()) && c0 == Control(Body, sumIn, lengthIn, n, kind)
      modifies this`memory, this`addr, this`escape, this`sendPtr, sendParms
      ensures Valid() && from <= pos <= |input|
      ensures Stands(progress, input, pos, c, rx0, n)
      ensures progress.Complete? ==> c == Control(Body, sum, length, n, kind) && length == lengthIn - 1
    {
      pos, sum, length, c := from, sumIn, lengthIn, c0;
      if pos == |input| { return Silent, pos, sum, length, c; }
      var newChar := input[pos];
      pos := pos + 1;
      if newChar < SPACE { return Refused, pos, sum, length, c; }
      AtStep(input, pos - 1, c, rx0, State());
      sum := sum + newChar;
      length := length - 1;
      TakeByte(kind, newChar);
      c := Control(Body, sum, length, n, kind);
      progress := Complete;
    }

    method GetBlockCheck(input: seq<Byte>, from: nat, sum: nat, length: int, n: Byte, kind: Byte,
                         ghost c0: Control, ghost rx0: Rx)
        returns (progress: Progress, pos: nat, ghost c: Control)
      requires Valid() && length <= 1
      requires At(input, from, c0, rx0, State()) && c0 == Control(Body, sum, length, n, kind)
      ensures from <= pos <= |input|
      ensures Stands(progress, input, pos, c, rx0, n)
      ensures progress.Complete? ==> c.phase.AwaitEnd? && c.kind == kind
    {
      pos, c := from, c0;
      if pos == |input| { return Silent, pos, c; }
      var newChar := input[pos];
      pos := pos + 1;
      if newChar < SPACE { return Refused, pos, c; }
      if newChar != ToChar(BlockCheck(sum)) { return Refused, pos, c; }
      AtStep(input, pos - 1, c, rx0, State());
      c := c.(phase := AwaitEnd);
      progress := Complete;
    }

    /** Everything after the start character: the attempt is complete, refused
        or unfinished, and nothing has been answered yet. */
    method GetPacket(input: seq<Byte>, from: nat, lastSeen: Byte, ghost c0: Control, ghost rx0: Rx)
        returns (progress: Progress, pos: nat, n: Byte, kind: Byte, ghost c: Control)
      requires Valid() && lastSeen < 224
      requires At(input, from, c0, rx0, State()) && c0 == Control(AwaitLength, 0, 0, lastSeen, 0)
      modifies this, sendParms
      ensures Valid() && binStart == old(binStart) && from <= pos <= |input| && n < 224
      ensures !progress.Complete? ==> Stands(progress, input, pos, c, rx0, n)
      ensures progress.Complete? ==>
        && 0 < pos
        && At(input, pos - 1, c, rx0, State())
        && c.phase.AwaitEnd? && c.n == n && c.kind == kind && input[pos - 1] == END_CHAR
    {
      var sum, length;
      kind := 0;
      progress, pos, sum, length, n, c := GetLead(input, from, lastSeen, c0, rx0);
      if !progress.Complete? { return; }
      progress, pos, kind, c := GetContent(input, pos, sum, length, n, c, rx0);
    }

    /** Type, data, block check and end character. */
    method GetContent(input: seq<Byte>, from: nat, sumIn: nat, lengthIn: int, n: Byte, ghost c0: Control, ghost rx0: Rx)
        returns (progress: Progress, pos: nat, kind: Byte, ghost c: Control)
      requires Valid()
      requires At(input, from, c0, rx0, State()) && c0 == Control(AwaitType, sumIn, lengthIn, n, 0)
      modifies this`memory, this`addr, this`escape, this`sendPtr, sendParms
      ensures Valid() && from <= pos <= |input|
      ensures !progress.Complete? ==> Stands(progress, input, pos, c, rx0, n)
      ensures progress.Complete? ==>
        && 0 < pos
        && At(input, pos - 1, c, rx0, State())
        && c.phase.AwaitEnd? && c.n == n && c.kind == kind && input[pos - 1] == END_CHAR
    {
      var sum, length;
      progress, pos, sum, length, kind, c := GetType(input, from, sumIn, lengthIn, n, c0, rx0);
      if !progress.Complete? { return; }
      progress, pos, c := GetBody(input, pos, sum, length, n, kind, c, rx0);
      if !progress.Complete? { return; }
      progress, pos := GetEnd(input, pos, n, kind, c, rx0);
    }

    /** The end character. */
    method GetEnd(input: seq<Byte>, from: nat, n: Byte, kind: Byte, ghost c: Control, ghost rx0: Rx)
        returns (progress: Progress, pos: nat)
      requires Valid()
      requires At(input, from, c, rx0, State()) && c.phase.AwaitEnd? && c.n == n && c.kind == kind
      ensures from <= pos <= |input|
      ensures !progress.Complete? ==> Stands(progress, input, pos, c, rx0, n)
      ensures progress.Complete? ==> 0 < pos && At(input, pos - 1, c, rx0, State()) && input[pos - 1] == END_CHAR
    {
      if from == |input| { return Silent, from; }
      pos := from + 1;
      if input[pos - 1] != END_CHAR { return Refused, pos; }
      progress := Complete;
    }

    /** Rolls back and answers a refused attempt. */
    method PacketError(n: Byte)
      requires Valid() && n < 224
      modifies this`escape, this`addr, this`sent, this`sendPtr, packet
      ensures Valid() && sendPtr == 0 && State() == Perform(old(State()), Reject(n))
    {
      DataRestore();
      SendSimple(NACK_TYPE, n);
      sendPtr := 0;
    }

    /** Answers a complete attempt. */
    method PacketDone(kind: Byte, n: Byte)
      requires Valid() && n < 224
      modifies this`hisEol, this`hisPadCount, this`hisPadChar, this`hisQuote, this`sendPtr, this`sent, packet
      ensures Valid() && sendPtr == 0 && State() == Perform(old(State()), Accept(kind, n))
    {
      if kind == SEND_TYPE {
        HandleSendPacket(n);
      } else {
        SendSimple(ACK_TYPE, n);
      }
      sendPtr := 0;
    }

    /** One packet attempt and its answer.  `Complete` means an accepted break
        packet, `Refused` that the loop goes on. */
    method HandlePacket(input: seq<Byte>, from: nat, lastSeen: Byte, ghost c0: Control, ghost rx0: Rx)
        returns (progress: Progress, pos: nat, n: Byte, ghost c: Control)
      requires Valid() && lastSeen < 224
      requires At(input, from, c0, rx0, State()) && c0 == Control(AwaitLength, 0, 0, lastSeen, 0)
      modifies this, sendParms, packet
      ensures Valid() && binStart == old(binStart) && from <= pos <= |input| && n < 224
      ensures At(input, pos, c, rx0, State())
      ensures progress.Silent? ==> pos == |input| && !c.phase.Stopped?
      ensures progress.Complete? ==> c.phase.Stopped? && Abort !in Drive(POWER_ON, input).1
      ensures progress.Refused? ==> c.phase.AwaitStart? && c.n == n && sendPtr == 0
    {
      var kind;
      progress, pos, n, kind, c := GetPacket(input, from, lastSeen, c0, rx0);
      if progress.Silent? { return; }
      AtStep(input, pos - 1, c, rx0, State());
      if progress.Refused? {
        c := Refuse(c).0;
        PacketError(n);
      } else {
        if kind == BREAK_TYPE {
          NoAbort(input, pos, c);
        } else {
          progress := Refused;
        }
        c := Advance(c, END_CHAR).0;
        PacketDone(kind, n);
      }
    }

    /** Waits for the start character (`Complete`) or ^C (`Refused`). */
    method WaitForStart(input: seq<Byte>, from: nat, ghost c0: Control, ghost rx0: Rx)
        returns (progress: Progress, pos: nat, ghost c: Control)
      requires Valid() && At(input, from, c0, rx0, State()) && c0.phase.AwaitStart?
      ensures from <= pos <= |input| && At(input, pos, c, rx0, State())
      ensures progress.Silent? ==> pos == |input| && c.phase.AwaitStart?
      ensures progress.Complete? ==> from < pos && c == Control(AwaitLength, 0, 0, c0.n, 0)
      ensures progress.Refused? ==> c.phase.Stopped? && Abort in Drive(POWER_ON, input).1
    {
      pos, c := from, c0;
      while pos < |input|
        invariant from <= pos <= |input| && At(input, pos, c, rx0, State())
        invariant c == c0
      {
        AtStep(input, pos, c, rx0, State());
        c := Advance(c, input[pos]).0;
        pos := pos + 1;
        if input[pos - 1] == START_CHAR {
          return Complete, pos, c;
        }
        if input[pos - 1] == ETX_CHAR {
          AbortSeen(input, pos - 1);
          return Refused, pos, c;
        }
      }
      progress := Silent;
    }

    /** Initial protocol parameters and the first checkpoint. */
    method Initialize()
      requires Valid()
      modifies this
      ensures Valid() && sendPtr == 0 && binStart == old(binStart)
      ensures State() == Fresh(binStart, old(memory), old(sent))
    {
      hisEol := END_CHAR;
      hisPadCount := 0;
      hisPadChar := 0;
      hisQuote := K_ESCAPE;
      DataInit();
      DataSave();
      lastN := -1;
      sendPtr := 0;
    }

    /** `k_recv`, run on the bytes that arrive on the line. */
    method ReceiveFile(input: seq<Byte>) returns (outcome: Outcome)
      requires Valid()
      modifies this, sendParms, packet
      ensures Valid() && binStart == old(binStart)
      ensures State() == Absorb(Fresh(binStart, old(memory), old(sent)), input)
      ensures outcome.Waiting? <==> !Drive(POWER_ON, input).0.phase.Stopped?
      ensures outcome.Interrupted? <==> Abort in Drive(POWER_ON, input).1
      ensures outcome.Received? ==> binStart <= addr && outcome.size == addr - binStart
    {
      Initialize();
      var n: Byte := 0;
      var pos := 0;
      ghost var rx0 := State();
      ghost var c := POWER_ON;
      assert At(input, 0, c, rx0, State()) by { assert input[..0] == []; }
      var signal := Silent;
      while true
        invariant Valid() && binStart == old(binStart) && pos <= |input| && n < 224
        invariant c.phase.AwaitStart? && c.n == n && At(input, pos, c, rx0, State())
        decreases |input| - pos
      {
        signal, pos, c := WaitForStart(input, pos, c, rx0);
        if !signal.Complete? {
          outcome := if signal.Refused? then Interrupted else Waiting;
          break;
        }
        signal, pos, n, c := HandlePacket(input, pos, n, c, rx0);
        if signal.Silent? {
          outcome := Waiting;
          break;
        }
        if signal.Complete? {
          outcome := Received(0);
          break;
        }
      }
      if c.phase.Stopped? {
        AtStop(input, pos, c, rx0, State());
      }
      Ending(input, |input|, c, rx0, State());
      if outcome.Received? {
        CursorAbove(rx0, binStart, Drive(POWER_ON, input).1);
        outcome := Received(addr - binStart);
      }
    }
  }
}
