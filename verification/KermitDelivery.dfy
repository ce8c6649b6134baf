/** What a Kermit transfer delivers.

    The ledger is the simple account of the receiver: the chunks it has
    committed to, and the chunk of the last accepted packet, which the next
    attempt may still revoke.  For every byte stream whatever, memory holds
    exactly what decoding the ledger gives.  From that follow the delivery
    theorems for a stop-and-wait sender over a faulty line.
 */
module KermitDelivery {
  import opened Arithmetic
  import opened KermitWire
  import opened KermitData
  import opened KermitReceiver

  datatype Ledger = Ledger(
    committed: seq<Chunk>,   // checkpointed: no later attempt can touch them
    pending: seq<Chunk>,     // the last accepted data packet, if not revoked
    live: seq<Byte>,         // data of the attempt in progress
    lastN: int,
    quote: Byte,
    parms: seq<Byte>)

  const EMPTY := Ledger([], [], [], -1, K_ESCAPE, [])

  /** The quote character a send-init packet with these parameters asks for. */
  function QuoteOf(parms: seq<Byte>): Byte {
    if Considered(|parms|) < 6 then K_ESCAPE else parms[5]
  }

  function Enter(l: Ledger, a: Action): Ledger {
    match a
    case Quiet => l
    case Abort => l
    case Begin(n) =>
      if n == l.lastN then l.(pending := [])
      else l.(committed := l.committed + l.pending, pending := [], lastN := n)
    case Payload(kind, b) =>
      if kind == DATA_TYPE then l.(live := l.live + [b])
      else if kind == SEND_TYPE && |l.parms| < SEND_DATA_SIZE - 1 then l.(parms := l.parms + [b])
      else l
    case Reject(n) => l.(pending := [], live := [], parms := [])
    case Accept(kind, n) =>
      if kind == DATA_TYPE then l.(pending := [Chunk(l.quote, l.live)], live := [], parms := [])
      else if kind == SEND_TYPE then l.(live := [], quote := QuoteOf(l.parms), parms := [])
      else l.(live := [], parms := [])
  }

  function EnterAll(l: Ledger, actions: seq<Action>): Ledger {
    if actions == [] then l
    else Enter(EnterAll(l, actions[..|actions| - 1]), actions[|actions| - 1])
  }

  /** The ledger of a byte stream. */
  function Account(s: seq<Byte>): Ledger {
    EnterAll(EMPTY, Drive(POWER_ON, s).1)
  }

  // ----- the receiver refines the ledger

  /** Everything decoded so far, the attempt in progress included. */
  function Decoding(l: Ledger): Decoded {
    FeedAll(l.quote, DecodeChunks(l.committed + l.pending), l.live)
  }

  function CursorOf(start: nat, d: Decoded): Cursor {
    Cursor(d.escape, start + |d.out|)
  }

  predicate HoldsAt(memory: map<nat, Byte>, a: nat, b: Byte) {
    a in memory && memory[a] == b
  }

  predicate Stored(memory: map<nat, Byte>, start: nat, out: seq<Byte>) {
    forall i :: 0 <= i < |out| ==> HoldsAt(memory, start + i, out[i])
  }

  predicate SameBelow(limit: nat, m: map<nat, Byte>, m': map<nat, Byte>) {
    forall a: nat :: a < limit ==> (a in m <==> a in m') && (a in m ==> m[a] == m'[a])
  }

  /** The refinement relation: the checkpoint is the decoder state after the
      committed chunks, the cursor that after everything, and memory holds it all. */
  predicate Refines(rx: Rx, l: Ledger, start: nat, initial: map<nat, Byte>) {
    && rx.quote == l.quote && rx.parms == l.parms && rx.lastN == l.lastN
    && rx.saved == CursorOf(start, DecodeChunks(l.committed))
    && rx.cur == CursorOf(start, Decoding(l))
    && Stored(rx.memory, start, Decoding(l).out)
    && SameBelow(start, initial, rx.memory)
  }

  /** Where in a packet the ledger may have an open or a revocable chunk. */
  predicate InStep(c: Control, l: Ledger) {
    && (l.live != [] ==> (c.phase.Body? || c.phase.AwaitEnd?) && c.kind == DATA_TYPE)
    && (l.pending != [] ==>
          c.phase.AwaitStart? || c.phase.AwaitLength? || c.phase.AwaitSeq? || c.phase.Stopped?)
  }

  lemma DecodingExtends(l: Ledger)
    ensures DecodeChunks(l.committed).out <= Decoding(l).out || |l.pending| > 1
  {
    if l.pending == [] {
      assert l.committed + l.pending == l.committed;
    } else if |l.pending| == 1 {
      assert l.committed + l.pending == l.committed + [l.pending[0]];
      DecodeChunksStep(l.committed, l.pending[0]);
      FeedAllExtends(l.pending[0].quote, DecodeChunks(l.committed), l.pending[0].data);
    }
    FeedAllExtends(l.quote, DecodeChunks(l.committed + l.pending), l.live);
  }

  lemma RollBack(rx: Rx, l: Ledger, start: nat, initial: map<nat, Byte>)
    requires Refines(rx, l, start, initial) && |l.pending| <= 1
    ensures Refines(rx.(cur := rx.saved), l.(pending := [], live := []), start, initial)
  {
    DecodingExtends(l);
    assert l.committed + [] == l.committed;
    StoredPrefix(rx.memory, start, Decoding(l).out, DecodeChunks(l.committed).out);
  }

  lemma StoredPrefix(memory: map<nat, Byte>, start: nat, out: seq<Byte>, prefix: seq<Byte>)
    requires Stored(memory, start, out) && prefix <= out
    ensures Stored(memory, start, prefix)
  {
    assert forall i :: 0 <= i < |prefix| ==> prefix[i] == out[i];
  }

  lemma StoredAppend(memory: map<nat, Byte>, start: nat, out: seq<Byte>, b: Byte)
    requires Stored(memory, start, out)
    ensures Stored(memory[start + |out| := b], start, out + [b])
  {
  }

  lemma RefinesData(rx: Rx, l: Ledger, b: Byte, start: nat, initial: map<nat, Byte>)
    requires Refines(rx, l, start, initial)
    ensures Refines(StoreByte(rx, b), l.(live := l.live + [b]), start, initial)
  {
    var d := Decoding(l);
    FeedAllStep(l.quote, DecodeChunks(l.committed + l.pending), l.live, b);
    assert Decoding(l.(live := l.live + [b])) == Feed(l.quote, d, b);
    StoredAppend(rx.memory, start, d.out, b);
    StoredAppend(rx.memory, start, d.out, Ktrans(b));
  }

  lemma RefinesAccept(rx: Rx, l: Ledger, kind: Byte, n: Byte, start: nat, initial: map<nat, Byte>)
    requires Refines(rx, l, start, initial) && l.pending == [] && (l.live != [] ==> kind == DATA_TYPE)
    ensures Refines(Perform(rx, Accept(kind, n)), Enter(l, Accept(kind, n)), start, initial)
  {
    assert l.committed + [] == l.committed;
    if kind == DATA_TYPE {
      DecodeChunksStep(l.committed, Chunk(l.quote, l.live));
    }
  }

  lemma RefinesBegin(rx: Rx, l: Ledger, n: Byte, start: nat, initial: map<nat, Byte>)
    requires Refines(rx, l, start, initial) && l.live == [] && |l.pending| <= 1
    ensures Refines(Perform(rx, Begin(n)), Enter(l, Begin(n)), start, initial)
  {
    if n == l.lastN {
      RollBack(rx, l, start, initial);
    } else {
      assert l.committed + l.pending + [] == l.committed + l.pending;
    }
  }

  /** What the control machine guarantees about the actions it issues. */
  predicate Fits(l: Ledger, a: Action) {
    && |l.pending| <= 1
    && (a.Begin? ==> l.live == [])
    && (a.Accept? ==> l.pending == [] && (l.live != [] ==> a.kind == DATA_TYPE))
  }

  lemma InStepKept(c: Control, l: Ledger, b: Byte)
    requires InStep(c, l) && |l.pending| <= 1
    ensures var (c', a) := Advance(c, b);
            Fits(l, a) && InStep(c', Enter(l, a)) && |Enter(l, a).pending| <= 1
  {
  }

  lemma RefinesReject(rx: Rx, l: Ledger, n: Byte, start: nat, initial: map<nat, Byte>)
    requires Refines(rx, l, start, initial) && |l.pending| <= 1
    ensures Refines(Perform(rx, Reject(n)), Enter(l, Reject(n)), start, initial)
  {
    RollBack(rx, l, start, initial);
  }

  lemma RefinesPayload(rx: Rx, l: Ledger, kind: Byte, b: Byte, start: nat, initial: map<nat, Byte>)
    requires Refines(rx, l, start, initial)
    ensures Refines(Perform(rx, Payload(kind, b)), Enter(l, Payload(kind, b)), start, initial)
  {
    if kind == DATA_TYPE { RefinesData(rx, l, b, start, initial); }
  }

  lemma RefinesStep(rx: Rx, l: Ledger, a: Action, start: nat, initial: map<nat, Byte>)
    requires Refines(rx, l, start, initial) && Fits(l, a)
    ensures Refines(Perform(rx, a), Enter(l, a), start, initial)
  {
    match a
    case Quiet =>
    case Abort =>
    case Begin(n) => RefinesBegin(rx, l, n, start, initial);
    case Reject(n) => RefinesReject(rx, l, n, start, initial);
    case Payload(kind, b) => RefinesPayload(rx, l, kind, b, start, initial);
    case Accept(kind, n) => RefinesAccept(rx, l, kind, n, start, initial);
  }

  /** For every byte stream: the receiver's checkpoint, cursor and memory are
      what decoding the ledger gives, and nothing below the start is touched. */
  lemma {:induction false} ReceiverRefinesLedger(s: seq<Byte>, start: nat, initial: map<nat, Byte>, sent: seq<Byte>)
    ensures Refines(Absorb(Fresh(start, initial, sent), s), Account(s), start, initial)
    ensures InStep(Drive(POWER_ON, s).0, Account(s)) && |Account(s).pending| <= 1
    decreases |s|
  {
    if s != [] {
      var init, b := s[..|s| - 1], s[|s| - 1];
      ReceiverRefinesLedger(init, start, initial, sent);
      var (c, actions) := Drive(POWER_ON, init);
      var a := Advance(c, b).1;
      assert Drive(POWER_ON, s).1 == actions + [a] && (actions + [a])[..|actions|] == actions;
      InStepKept(c, Account(init), b);
      RefinesStep(Absorb(Fresh(start, initial, sent), init), Account(init), a, start, initial);
    }
  }

  // ----- the checkpoint

  /** However the transfer goes on, memory below the checkpoint is final and
      the checkpoint never moves back. */
  lemma {:induction false} BelowCheckpoint(rx: Rx, actions: seq<Action>)
    requires rx.saved.addr <= rx.cur.addr
    ensures var rx' := PerformAll(rx, actions);
            && rx.saved.addr <= rx'.saved.addr <= rx'.cur.addr
            && SameBelow(rx.saved.addr, rx.memory, rx'.memory)
    decreases |actions|
  {
    if actions != [] {
      BelowCheckpoint(rx, actions[..|actions| - 1]);
    }
  }

  /** The same over the line: what follows a byte stream `s` cannot change
      memory below the checkpoint that `s` left. */
  lemma CheckpointIsFinal(s: seq<Byte>, t: seq<Byte>, start: nat, initial: map<nat, Byte>, sent: seq<Byte>)
    ensures var rx, rx' := Absorb(Fresh(start, initial, sent), s), Absorb(Fresh(start, initial, sent), s + t);
            && start <= rx.saved.addr <= rx'.saved.addr
            && SameBelow(rx.saved.addr, rx.memory, rx'.memory)
  {
    var rx0 := Fresh(start, initial, sent);
    var (c, actions) := Drive(POWER_ON, s);
    DriveConcat(POWER_ON, s, t);
    PerformConcat(rx0, actions, Drive(c, t).1);
    CursorAbove(rx0, start, actions);
    BelowCheckpoint(rx0, actions);
    BelowCheckpoint(PerformAll(rx0, actions), Drive(c, t).1);
  }
}
