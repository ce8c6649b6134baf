/** EEPROM access in chunks: a device whose write address only counts inside a
    page, and whose read address only counts inside a 256-byte block.
 */
module Eeprom {
  import opened Arithmetic

  const I2C_RXTX_LEN := 128

  // ----- the device

  /** The address after `o`, counting inside a unit of `size` bytes. */
  function Next(size: nat, o: nat): nat
    requires 0 < size
  {
    if (o + 1) % size == 0 then o + 1 - size else o + 1
  }

  /** One write transaction, byte by byte; bytes past the end of the device are lost. */
  function PageWrite(mem: seq<Byte>, size: nat, o: nat, data: seq<Byte>): seq<Byte>
    requires 0 < size
    decreases |data|
  {
    if data == [] then mem
    else PageWrite(if o < |mem| then mem[o := data[0]] else mem, size, Next(size, o), data[1..])
  }

  /** One read transaction. */
  function BlockRead(mem: seq<Byte>, size: nat, o: nat, len: nat): seq<Byte>
    requires 0 < size
    decreases len
  {
    if len == 0 then [] else [if o < |mem| then mem[o] else 0] + BlockRead(mem, size, Next(size, o), len - 1)
  }

  /** The plain update of an array. */
  function Flat(mem: seq<Byte>, o: nat, data: seq<Byte>): seq<Byte>
    requires o + |data| <= |mem|
  {
    mem[..o] + data + mem[o + |data|..]
  }

  /** Inside a unit the address just counts up. */
  lemma NextInside(size: nat, o: nat)
    requires 0 < size && o % size + 1 < size
    ensures Next(size, o) == o + 1 && (o + 1) % size == o % size + 1
  {
    DivModUnique(o + 1, size, o / size, o % size + 1);
  }

  lemma {:induction false} PageWriteFlat(mem: seq<Byte>, size: nat, o: nat, data: seq<Byte>)
    requires 0 < size && o % size + |data| <= size && o + |data| <= |mem|
    ensures PageWrite(mem, size, o, data) == Flat(mem, o, data)
    decreases |data|
  {
    if |data| == 0 {
      assert Flat(mem, o, data) == mem;
    } else {
      var mem' := mem[o := data[0]];
      if |data| > 1 {
        NextInside(size, o);
        PageWriteFlat(mem', size, o + 1, data[1..]);
        assert Flat(mem', o + 1, data[1..]) == Flat(mem, o, data);
      } else {
        assert data[1..] == [] && mem' == Flat(mem, o, data);
      }
    }
  }

  lemma {:induction false} BlockReadFlat(mem: seq<Byte>, size: nat, o: nat, len: nat)
    requires 0 < size && o % size + len <= size && o + len <= |mem|
    ensures BlockRead(mem, size, o, len) == mem[o..o + len]
    decreases len
  {
    if len > 1 {
      NextInside(size, o);
      BlockReadFlat(mem, size, o + 1, len - 1);
    } else if len == 1 {
      assert BlockRead(mem, size, Next(size, o), 0) == [];
    }
  }

  // ----- chunks

  /** How many bytes the next chunk takes: to the end of the unit as computed
      from the low address byte, and no more than the bus driver carries. */
  function ChunkLength(size: nat, offset: nat, left: nat): nat
    requires 0 < size
  {
    var maxlen := size - (offset % 256) % size;
    var capped := if maxlen > I2C_RXTX_LEN then I2C_RXTX_LEN else maxlen;
    if left > capped then capped else left
  }

  /** How many chunks a request for `n` bytes takes from its byte `k` on. */
  function ChunksLeft(size: nat, offset: nat, n: nat, k: nat): nat
    requires 0 < size && k <= n
    decreases n - k
  {
    if k == n then 0 else 1 + ChunksLeft(size, offset, n, k + ChunkLength(size, offset + k, n - k))
  }

  /** For pages of up to 256 bytes the low address byte gives the page offset. */
  lemma LowByteSuffices(b: nat, offset: nat)
    requires b <= 8
    ensures 0 < Pow2(b) && (offset % 256) % Pow2(b) == offset % Pow2(b)
  {
    Pow2Positive(b);
    Pow2Positive(8 - b);
    Pow2Add(b, 8 - b);
    Pow2Of8();
    ModOfMod(offset, Pow2(b), Pow2(8 - b));
  }

  lemma Pow2Of8()
    ensures Pow2(8) == 256
  {
    assert Pow2(4) == 16;
    Pow2Add(4, 4);
  }

  /** No chunk leaves its page, for every offset and count, if and only if pages
      are at most 256 bytes. */
  lemma ChunksStayInPageIff(b: nat)
    ensures 0 < Pow2(b)
    ensures (forall offset: nat, left: nat :: offset % Pow2(b) + ChunkLength(Pow2(b), offset, left) <= Pow2(b))
            <==> b <= 8
  {
    Pow2Positive(b);
    if b <= 8 {
      forall offset: nat, left: nat ensures offset % Pow2(b) + ChunkLength(Pow2(b), offset, left) <= Pow2(b) {
        LowByteSuffices(b, offset);
      }
    } else {
      LargePages(b);
      var size := Pow2(b);
      var o := size - 16;
      DivModUnique(o, size, 0, o);
      LargeChunk(size);
      assert o % size + ChunkLength(size, o, 128) > size;
    }
  }

  lemma {:induction false} LargePages(b: nat)
    requires b >= 9
    ensures Pow2(b) >= 512 && Pow2(b) % 256 == 0
  {
    if b > 9 {
      LargePages(b - 1);
    } else {
      Pow2Of8();
    }
  }

  /** ... so a larger page is corrupted: of 128 bytes written 16 bytes before its
      end, the seventeenth wraps to the start of the page. */
  lemma LargePageWraps(b: nat, mem: seq<Byte>, data: seq<Byte>)
    requires b >= 9 && |data| == 128 && |mem| >= Pow2(b) + 112
    ensures Pow2(b) >= 512 && ChunkLength(Pow2(b), Pow2(b) - 16, 128) == 128
    ensures var after := PageWrite(mem, Pow2(b), Pow2(b) - 16, data);
            |after| == |mem| && after[0] == data[16]
  {
    LargePages(b);
    LargeChunk(Pow2(b));
    WrapStep(mem, Pow2(b), Pow2(b) - 16, data, 0);
  }

  lemma LargeChunk(size: nat)
    requires size >= 512 && size % 256 == 0
    ensures ChunkLength(size, size - 16, 128) == 128
  {
    assert (size - 16) % 256 == 240;
    DivModUnique(240, size, 0, 240);
  }

  /** Writing towards the end of the first page, and then over it. */
  lemma {:induction false} WrapStep(mem: seq<Byte>, size: nat, o: nat, data: seq<Byte>, done: nat)
    requires done <= 15 && size >= 512 && o == size - 16 + done && |mem| >= size && |data| == 128 - done
    ensures |PageWrite(mem, size, o, data)| == |mem| && PageWrite(mem, size, o, data)[0] == data[16 - done]
    decreases 16 - done
  {
    var mem' := mem[o := data[0]];
    if done < 15 {
      DivModUnique(o + 1, size, 0, o + 1);
      WrapStep(mem', size, o + 1, data[1..], done + 1);
    } else {
      DivModUnique(o + 1, size, 1, 0);
      DivModUnique(0, size, 0, 0);
      PageWriteFlat(mem', size, 0, data[1..]);
      assert Flat(mem', 0, data[1..])[0] == data[1];
    }
  }

  lemma BlockChunk(mem: seq<Byte>, o: nat, left: nat)
    requires 0 < left && o + left <= |mem|
    ensures var len := ChunkLength(256, o, left);
            0 < len <= left && BlockRead(mem, 256, o, len) == mem[o..o + len]
  {
    var len := ChunkLength(256, o, left);
    assert 0 < len <= left && o % 256 + len <= 256 by { BlockBounds(o, left); }
    BlockReadFlat(mem, 256, o, len);
  }

  lemma BlockBounds(o: nat, left: nat)
    requires 0 < left
    ensures var len := ChunkLength(256, o, left); 0 < len <= left && o % 256 + len <= 256
  {
  }

  // ----- the driver

  /** The device on its bus: `fails` says which transactions the bus loses. */
  class Device {
    const pageBits: nat
    const fails: nat -> bool
    var mem: seq<Byte>
    var transactions: nat

    constructor (pageBits: nat, fails: nat -> bool, mem: seq<Byte>)
      ensures this.pageBits == pageBits && this.fails == fails && this.mem == mem && transactions == 0
    {
      this.pageBits, this.fails, this.mem, transactions := pageBits, fails, mem, 0;
    }

    method I2cWrite(offset: nat, data: seq<Byte>) returns (ok: bool)
      modifies this
      ensures 0 < Pow2(pageBits) && transactions == old(transactions) + 1 && ok == !fails(old(transactions))
      ensures mem == if ok then PageWrite(old(mem), Pow2(pageBits), offset, data) else old(mem)
    {
      Pow2Positive(pageBits);
      ok := !fails(transactions);
      transactions := transactions + 1;
      if ok {
        mem := PageWrite(mem, Pow2(pageBits), offset, data);
      }
    }

    method I2cRead(offset: nat, len: nat) returns (ok: bool, data: seq<Byte>)
      modifies this`transactions
      ensures transactions == old(transactions) + 1 && ok == !fails(old(transactions))
      ensures data == if ok then BlockRead(mem, 256, offset, len) else []
    {
      ok := !fails(transactions);
      transactions := transactions + 1;
      data := if ok then BlockRead(mem, 256, offset, len) else [];
    }

    /** One pass of the write loop. */
    method WriteChunk(o: nat, rest: seq<Byte>) returns (ok: bool, len: nat)
      requires pageBits <= 8 && 0 < |rest| && o + |rest| <= |mem|
      modifies this
      ensures transactions == old(transactions) + 1 && ok == !fails(old(transactions))
      ensures 0 < Pow2(pageBits) && len == ChunkLength(Pow2(pageBits), o, |rest|)
      ensures 0 < len <= |rest| && mem == if ok then Flat(old(mem), o, rest[..len]) else old(mem)
    {
      Pow2Positive(pageBits);
      ChunksStayInPageIff(pageBits);
      ChunkPositive(pageBits, o, |rest|);
      len := ChunkLength(Pow2(pageBits), o, |rest|);
      PageWriteFlat(mem, Pow2(pageBits), o, rest[..len]);
      ok := I2cWrite(o, rest[..len]);
    }

    /** One pass of the write loop, with the account of the whole request. */
    method TryChunk(offset: nat, buffer: seq<Byte>, k: nat, rcode: int, ghost was: seq<Byte>) returns (rcode': int, k': nat)
      requires pageBits <= 8 && k < |buffer| && offset + |buffer| <= |was|
      requires Written(was, offset, buffer, k, rcode, mem)
      modifies this
      ensures transactions == old(transactions) + 1
      ensures rcode' == if fails(old(transactions)) then 1 else rcode
      ensures k < k' <= |buffer| && Written(was, offset, buffer, k', rcode', mem)
      ensures 0 < Pow2(pageBits) && ChunksLeft(Pow2(pageBits), offset, |buffer|, k) == 1 + ChunksLeft(Pow2(pageBits), offset, |buffer|, k')
    {
      var ok, len := WriteChunk(offset + k, buffer[k..]);
      assert |buffer[k..]| == |buffer| - k;
      WriteStep(was, offset, buffer, old(mem), k, len, rcode, ok);
      rcode', k' := if ok then rcode else 1, k + len;
    }

    /** `eeprom_write`: zero means that every transaction went through, and then
        the device has been updated like an array.  A lost one does not stop the
        others. */
    method Write(offset: nat, buffer: seq<Byte>) returns (rcode: int)
      requires pageBits <= 8 && offset + |buffer| <= |mem|
      modifies this
      ensures rcode == 0 <==> forall t :: old(transactions) <= t < transactions ==> !fails(t)
      ensures rcode == 0 ==> mem == Flat(old(mem), offset, buffer)
      ensures |mem| == |old(mem)| && Between(old(mem), offset, buffer, mem)
      ensures 0 < Pow2(pageBits) && transactions == old(transactions) + ChunksLeft(Pow2(pageBits), offset, |buffer|, 0)
    {
      Pow2Positive(pageBits);
      rcode := 0;
      var k: nat := 0;
      ghost var was := mem;
      assert Flat(was, offset, buffer[..0]) == was;
      while k < |buffer|
        invariant k <= |buffer| && old(transactions) <= transactions
        invariant rcode == 0 <==> forall t :: old(transactions) <= t < transactions ==> !fails(t)
        invariant Written(was, offset, buffer, k, rcode, mem)
        invariant transactions + ChunksLeft(Pow2(pageBits), offset, |buffer|, k) ==
                  old(transactions) + ChunksLeft(Pow2(pageBits), offset, |buffer|, 0)
      {
        rcode, k := TryChunk(offset, buffer, k, rcode, was);
      }
      assert buffer[..|buffer|] == buffer;
    }

    /** One pass of the read loop. */
    method ReadChunk(o: nat, left: nat) returns (ok: bool, len: nat, data: seq<Byte>)
      requires 0 < left && o + left <= |mem|
      modifies this`transactions
      ensures transactions == old(transactions) + 1 && ok == !fails(old(transactions))
      ensures 0 < len <= left && (ok ==> data == mem[o..o + len])
    {
      len := ChunkLength(256, o, left);
      BlockChunk(mem, o, left);
      ok, data := I2cRead(o, len);
    }

    /** `eeprom_read`. */
    method Read(offset: nat, cnt: nat) returns (rcode: int, buffer: seq<Byte>)
      requires offset + cnt <= |mem|
      modifies this`transactions
      ensures rcode == 0 <==> forall t :: old(transactions) <= t < transactions ==> !fails(t)
      ensures rcode == 0 ==> buffer == mem[offset..offset + cnt]
    {
      rcode, buffer := 0, [];
      var o, end := offset, offset + cnt;
      while o < end
        invariant offset <= o <= end && old(transactions) <= transactions
        invariant rcode == 0 <==> forall t :: old(transactions) <= t < transactions ==> !fails(t)
        invariant rcode == 0 ==> buffer == mem[offset..o]
      {
        var ok, len, data := ReadChunk(o, end - o);
        if !ok {
          rcode := 1;
        }
        buffer := buffer + data;
        assert mem[offset..o] + mem[o..o + len] == mem[offset..o + len];
        o := o + len;
      }
    }
  }

  /** Bytes outside the range are as they were, bytes inside are old or new. */
  predicate Between(was: seq<Byte>, offset: nat, buffer: seq<Byte>, mem: seq<Byte>) {
    |mem| == |was| && forall i :: 0 <= i < |mem| ==>
      mem[i] == was[i] || (offset <= i < offset + |buffer| && mem[i] == buffer[i - offset])
  }

  /** The first `k` bytes have been tried: all are there if no chunk was lost. */
  predicate Written(was: seq<Byte>, offset: nat, buffer: seq<Byte>, k: nat, rcode: int, mem: seq<Byte>)
    requires k <= |buffer| && offset + |buffer| <= |was|
  {
    Between(was, offset, buffer, mem) && (rcode == 0 ==> mem == Flat(was, offset, buffer[..k]))
  }

  lemma WriteStep(was: seq<Byte>, offset: nat, buffer: seq<Byte>, mem: seq<Byte>, k: nat, len: nat, rcode: int, ok: bool)
    requires k + len <= |buffer| && offset + |buffer| <= |was| && Written(was, offset, buffer, k, rcode, mem)
    ensures buffer[k..][..len] == buffer[k..k + len]
    ensures Written(was, offset, buffer, k + len, if ok then rcode else 1,
                    if ok then Flat(mem, offset + k, buffer[k..][..len]) else mem)
  {
    assert buffer[k..][..len] == buffer[k..k + len];
    if ok {
      BetweenStep(was, offset, buffer, mem, k, len);
      FlatStep(was, offset, buffer, k, len);
    }
  }

  lemma BetweenStep(was: seq<Byte>, offset: nat, buffer: seq<Byte>, mem: seq<Byte>, k: nat, len: nat)
    requires Between(was, offset, buffer, mem) && k + len <= |buffer| && offset + |buffer| <= |mem|
    ensures Between(was, offset, buffer, Flat(mem, offset + k, buffer[k..k + len]))
  {
  }

  lemma ChunkPositive(b: nat, offset: nat, left: nat)
    requires 0 < left
    ensures 0 < Pow2(b) && 0 < ChunkLength(Pow2(b), offset, left) <= left
  {
    Pow2Positive(b);
  }

  lemma FlatStep(mem: seq<Byte>, o: nat, data: seq<Byte>, k: nat, len: nat)
    requires o + |data| <= |mem| && k + len <= |data|
    ensures Flat(Flat(mem, o, data[..k]), o + k, data[k..k + len]) == Flat(mem, o, data[..k + len])
  {
    assert data[..k] + data[k..k + len] == data[..k + len];
  }

  /** A write followed by a read of the same range returns what was written. */
  method WriteThenRead(d: Device, offset: nat, data: seq<Byte>) returns (wrote: int, rcode: int, back: seq<Byte>)
    requires d.pageBits <= 8 && offset + |data| <= |d.mem|
    modifies d
    ensures wrote == 0 && rcode == 0 ==> back == data
  {
    wrote := d.Write(offset, data);
    rcode, back := d.Read(offset, |data|);
  }
}
