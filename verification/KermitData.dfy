/** Control quoting: how data bytes are escaped on the line and what the
    receiver's translation makes of them.
 */
module KermitData {
  import opened Arithmetic
  import opened KermitWire

  /** Converts an escaped character back: 0x40..0x5F lose bit 6, 0x3F gains it,
      in both halves of the byte range. */
  function Ktrans(b: Byte): Byte {
    if (b / 32) % 4 == 2 then b - 64
    else if b % 128 == 0x3F then b + 64
    else b
  }

  function KtransMasks(b: bv8): bv8 {
    if b & 0x60 == 0x40 then b & !0x40
    else if b & 0x7F == 0x3F then b | 0x40
    else b
  }

  /** The arithmetic form is the masking form of the source on every byte. */
  lemma KtransAgrees(b: bv8)
    ensures Ktrans(b as int) == KtransMasks(b) as int
  {
    GroupOf(b);
    RestOf(b);
    if b & 0x60 == 0x40 {
      assert (b & !0x40) as int == b as int - 64;
    } else if b & 0x7F == 0x3F {
      assert (b | 0x40) as int == b as int + 64;
    }
  }

  /** Bits 5 and 6 in arithmetic. */
  lemma GroupOf(b: bv8)
    ensures b & 0x60 == 0x40 <==> (b as int / 32) % 4 == 2
  {
  }

  /** The low seven bits in arithmetic. */
  lemma RestOf(b: bv8)
    ensures b & 0x7F == 0x3F <==> b as int % 128 == 0x3F
  {
  }

  /** The decoder: a pending escape and the bytes produced so far. */
  datatype Decoded = Decoded(escape: bool, out: seq<Byte>)

  const NOTHING := Decoded(false, [])

  function Feed(quote: Byte, d: Decoded, b: Byte): Decoded {
    if d.escape then Decoded(false, d.out + [Ktrans(b)])
    else if b == quote then Decoded(true, d.out)
    else Decoded(false, d.out + [b])
  }

  function FeedAll(quote: Byte, d: Decoded, data: seq<Byte>): Decoded {
    if data == [] then d
    else Feed(quote, FeedAll(quote, d, data[..|data| - 1]), data[|data| - 1])
  }

  /** The data of one accepted packet and the quote character in force for it. */
  datatype Chunk = Chunk(quote: Byte, data: seq<Byte>)

  function DecodeChunks(chunks: seq<Chunk>): Decoded {
    if chunks == [] then NOTHING
    else
      var last := chunks[|chunks| - 1];
      FeedAll(last.quote, DecodeChunks(chunks[..|chunks| - 1]), last.data)
  }

  lemma FeedAllStep(quote: Byte, d: Decoded, data: seq<Byte>, b: Byte)
    ensures FeedAll(quote, d, data + [b]) == Feed(quote, FeedAll(quote, d, data), b)
  {
    assert (data + [b])[..|data + [b]| - 1] == data;
  }

  lemma DecodeChunksStep(chunks: seq<Chunk>, c: Chunk)
    ensures DecodeChunks(chunks + [c]) == FeedAll(c.quote, DecodeChunks(chunks), c.data)
  {
    assert (chunks + [c])[..|chunks + [c]| - 1] == chunks;
  }

  lemma {:induction false} FeedAllConcat(quote: Byte, d: Decoded, s: seq<Byte>, t: seq<Byte>)
    ensures FeedAll(quote, d, s + t) == FeedAll(quote, FeedAll(quote, d, s), t)
    decreases |t|
  {
    if t == [] {
      assert s + t == s;
    } else {
      FeedAllConcat(quote, d, s, t[..|t| - 1]);
      assert (s + t)[..|s + t| - 1] == s + t[..|t| - 1];
    }
  }

  /** Decoding only ever appends. */
  lemma {:induction false} FeedAllExtends(quote: Byte, d: Decoded, data: seq<Byte>)
    ensures d.out <= FeedAll(quote, d, data).out
    decreases |data|
  {
    if data != [] {
      FeedAllExtends(quote, d, data[..|data| - 1]);
    }
  }

  // ----- the sender's encoding

  /** Quote characters the protocol admits. */
  predicate LegalQuote(q: Byte) {
    33 <= q <= 62 || 96 <= q <= 126
  }

  predicate IsControl(b: Byte) {
    b % 128 < 32 || b % 128 == 127
  }

  /** A control byte with bit 6 inverted, which makes it printable. */
  function Uncontrol(b: Byte): Byte
    requires IsControl(b)
  {
    if (b / 64) % 2 == 0 then b + 64 else b - 64
  }

  function EncodeByte(q: Byte, b: Byte): seq<Byte> {
    if IsControl(b) then [q, Uncontrol(b)]
    else if b % 128 == q then [q, b]
    else [b]
  }

  function Encode(q: Byte, file: seq<Byte>): seq<Byte> {
    if file == [] then [] else Encode(q, file[..|file| - 1]) + EncodeByte(q, file[|file| - 1])
  }

  /** A byte is sent as itself, or as the quote and a byte that stands for it. */
  lemma EncodedByte(q: Byte, b: Byte)
    requires LegalQuote(q)
    ensures var e := EncodeByte(q, b);
            (e == [b] && b != q) || (|e| == 2 && e[0] == q && Ktrans(e[1]) == b)
  {
    if IsControl(b) {
      ControlBack(b);
    } else if b % 128 == q {
      QuoteKept(b);
    }
  }

  /** Unquoting restores a control byte. */
  lemma ControlBack(b: Byte)
    requires IsControl(b)
    ensures Ktrans(Uncontrol(b)) == b
  {
    assert b < 32 || b == 127 || 128 <= b < 160 || b == 255;
  }

  /** Unquoting leaves a quoted quote character alone. */
  lemma QuoteKept(b: Byte)
    requires LegalQuote(b % 128)
    ensures Ktrans(b) == b
  {
    assert b / 128 < 2;
  }

  lemma DecodeByte(q: Byte, d: Decoded, b: Byte)
    requires LegalQuote(q) && !d.escape
    ensures FeedAll(q, d, EncodeByte(q, b)) == Decoded(false, d.out + [b])
  {
    var e := EncodeByte(q, b);
    EncodedByte(q, b);
    FeedAllStep(q, d, [], e[0]);
    assert [] + [e[0]] == [e[0]];
    if |e| == 2 {
      FeedAllStep(q, d, [e[0]], e[1]);
      assert [e[0]] + [e[1]] == e;
    }
  }

  /** Encoded bytes never look like a control character, so they never trip the
      receiver's below-space test. */
  lemma {:induction false} EncodePrintable(q: Byte, file: seq<Byte>)
    requires LegalQuote(q)
    ensures Printable(Encode(q, file))
    decreases |file|
  {
    if file != [] {
      EncodePrintable(q, file[..|file| - 1]);
    }
  }

  lemma {:induction false} DecodeEncode(q: Byte, file: seq<Byte>)
    requires LegalQuote(q)
    ensures FeedAll(q, NOTHING, Encode(q, file)) == Decoded(false, file)
    decreases |file|
  {
    if file != [] {
      var init, b := file[..|file| - 1], file[|file| - 1];
      assert file == init + [b];
      DecodeEncode(q, init);
      DecodeNext(q, init, b);
    }
  }

  lemma EncodeNext(q: Byte, init: seq<Byte>, b: Byte)
    ensures Encode(q, init + [b]) == Encode(q, init) + EncodeByte(q, b)
  {
    var file := init + [b];
    assert file[..|file| - 1] == init && file[|file| - 1] == b;
  }

  lemma DecodeNext(q: Byte, init: seq<Byte>, b: Byte)
    requires LegalQuote(q) && FeedAll(q, NOTHING, Encode(q, init)) == Decoded(false, init)
    ensures FeedAll(q, NOTHING, Encode(q, init + [b])) == Decoded(false, init + [b])
  {
    EncodeNext(q, init, b);
    DecodeByte(q, Decoded(false, init), b);
    FeedAllConcat(q, NOTHING, Encode(q, init), EncodeByte(q, b));
  }

  function Join(chunks: seq<Chunk>): seq<Byte> {
    if chunks == [] then [] else Join(chunks[..|chunks| - 1]) + chunks[|chunks| - 1].data
  }

  lemma {:induction false} DecodeJoined(q: Byte, chunks: seq<Chunk>)
    requires forall i :: 0 <= i < |chunks| ==> chunks[i].quote == q
    ensures DecodeChunks(chunks) == FeedAll(q, NOTHING, Join(chunks))
    decreases |chunks|
  {
    if chunks != [] {
      var init, last := chunks[..|chunks| - 1], chunks[|chunks| - 1];
      DecodeJoined(q, init);
      FeedAllConcat(q, NOTHING, Join(init), last.data);
    }
  }

  /** Quoting round trip: however the encoded file is cut into packets, even
      between a quote and the byte it quotes, decoding restores it. */
  lemma QuotingRoundTrip(q: Byte, file: seq<Byte>, chunks: seq<Chunk>)
    requires LegalQuote(q)
    requires forall i :: 0 <= i < |chunks| ==> chunks[i].quote == q
    requires Join(chunks) == Encode(q, file)
    ensures DecodeChunks(chunks) == Decoded(false, file)
  {
    DecodeJoined(q, chunks);
    DecodeEncode(q, file);
  }
}
