/**
 * The `EEPROM_24C256` driver: a 24C256 (32 KB, 64-byte pages) on an I2C
 * bus. Each operation turns an (address, data) request into the chip's
 * transactions on the bus it was handed; every method is proved to append
 * exactly the trace that `Schedule` gives for it, and nothing else.
 */
module Eeprom {
  import opened Wire
  import opened Schedule
  import opened PicoSdk

  /** `wait_for_eeprom_ready`: a fixed 10 ms sleep stands in for acknowledgment polling. */
  method WaitForEepromReady(bus: Bus)
    modifies bus
    ensures bus.log == old(bus.log) + [Sleep(WriteCycleMs)]
  {
    bus.SleepMs(WriteCycleMs);
  }

  /** The driver converts a failed read's status, PICO_ERROR_GENERIC (-2), to `uint8_t`: the caller sees 254, never a negative value. */
  lemma ReadPageStatusNarrowed()
    ensures ToUint8(PageSize) == PageSize
    ensures ToUint8(PicoErrorGeneric) == 254
    ensures ToUint8(PicoErrorGeneric) != PicoErrorGeneric
  {
  }

  class Driver {
    /** The I2C peripheral; the driver uses it but does not own it. */
    const i2c: Bus
    /** The chip's right-aligned 7-bit bus address. */
    const deviceAddress: U8
    /** Whether every write is followed by the write-cycle pause. */
    const autoWait: bool

    /** The configuration is stored as given and, being constant, never changes afterwards; auto-wait is on unless turned off. */
    constructor (i2c: Bus, deviceAddress: U8, autoWait: bool := true)
      requires deviceAddress < 128
      ensures this.i2c == i2c && this.deviceAddress == deviceAddress && this.autoWait == autoWait
      ensures i2c.log == old(i2c.log)
    {
      this.i2c := i2c;
      this.deviceAddress := deviceAddress;
      this.autoWait := autoWait;
    }

    /** `write_byte`: one three-byte write (address high, address low, value) with a stop, then the pause if auto-wait is on. */
    method WriteByte(address: U16, value: U8)
      modifies i2c
      ensures i2c.log == old(i2c.log) + OpTrace(deviceAddress, autoWait, ByteWrite(address, value))
    {
      var first := Hi(address);
      var second := Lo(address);
      var frame := [first, second, value];
      assert frame == Frame(ByteWrite(address, value));
      i2c.WriteBlocking(deviceAddress, frame, false);
      if autoWait {
        WaitForEepromReady(i2c);
      }
    }

    /**
     * `write_page`: the first 64 bytes of `data` are copied behind the two
     * address bytes of a 66-byte buffer, which goes out as one write with a
     * stop, then the pause if auto-wait is on.
     */
    method WritePage(address: U16, data: seq<U8>)
      requires |data| >= PageSize
      modifies i2c
      ensures i2c.log == old(i2c.log) + OpTrace(deviceAddress, autoWait, PageWrite(address, data[..PageSize]))
    {
      var first := Hi(address);
      var second := Lo(address);
      var buf := new U8[PageSize + 2];
      forall k | 0 <= k < PageSize {
        buf[2 + k] := data[k];
      }
      buf[0] := first;
      buf[1] := second;
      assert buf[..] == Frame(PageWrite(address, data[..PageSize]));
      i2c.WriteBlocking(deviceAddress, buf[..], false);
      if autoWait {
        WaitForEepromReady(i2c);
      }
    }

    /**
     * `read_byte`: the two address bytes go out without a stop, then one
     * byte is read with a stop; there is never a pause. On an acknowledged
     * read the result is the byte the chip sent; otherwise it is whatever the
     * uninitialised local held, about which nothing is known.
     */
    method ReadByte(address: U16, reply: Reply) returns (b: U8)
      requires Fits(reply, 1)
      modifies i2c
      ensures i2c.log == old(i2c.log) + ReadTrace(deviceAddress, address, 1)
      ensures reply.Ack? ==> b == reply.data[0]
    {
      var first := Hi(address);
      var second := Lo(address);
      var addr := [first, second];
      i2c.WriteBlocking(deviceAddress, addr, true);
      var buf := new U8[1];
      var ignored := i2c.ReadBlocking(deviceAddress, buf, 0, 1, false, reply);
      b := buf[0];
    }

    /**
     * `read_page`: the two address bytes go out without a stop, then 64
     * bytes are read with a stop into `buffer[offset .. offset + 64)`;
     * there is never a pause. The SDK's status is returned narrowed to
     * `uint8_t`: 64 on success, 254 (not PICO_ERROR_GENERIC) on failure, in
     * which case the buffer is left as it was.
     */
    method ReadPage(address: U16, buffer: array<U8>, offset: nat, reply: Reply) returns (r: U8)
      requires offset + PageSize <= buffer.Length
      requires Fits(reply, PageSize)
      modifies i2c, buffer
      ensures i2c.log == old(i2c.log) + ReadTrace(deviceAddress, address, PageSize)
      ensures r == ToUint8(if reply.Ack? then PageSize else PicoErrorGeneric)
      ensures r == PageSize <==> reply.Ack?
      ensures forall p :: 0 <= p < buffer.Length ==>
        buffer[p] == if reply.Ack? && offset <= p < offset + PageSize then reply.data[p - offset] else old(buffer[p])
    {
      var first := Hi(address);
      var second := Lo(address);
      var addr := [first, second];
      i2c.WriteBlocking(deviceAddress, addr, true);
      var res := i2c.ReadBlocking(deviceAddress, buffer, offset, PageSize, false, reply);
      r := ToUint8(res);
    }

    /**
     * `dump`: `read_page` at 0, 64, …, 32704 into the matching 64-byte
     * region of `buffer`, in that order. `replies[k]` is how the chip
     * answers read k. Each byte of the first 32768 ends up as the chip sent
     * it, or unchanged where that page's read failed; the rest of the buffer
     * is untouched.
     */
    method Dump(buffer: array<U8>, replies: seq<Reply>)
      requires buffer.Length >= Capacity
      requires |replies| == PageCount
      requires forall k :: 0 <= k < PageCount && replies[k].Ack? ==> |replies[k].data| == PageSize
      modifies i2c, buffer
      ensures i2c.log == old(i2c.log) + SweepTrace(deviceAddress, PageCount)
      ensures forall p :: 0 <= p < buffer.Length ==>
        buffer[p] == if p < Capacity && replies[p / PageSize].Ack? then replies[p / PageSize].data[p % PageSize] else old(buffer[p])
    {
      var i := 0;
      ghost var k := 0;
      while i < PageCount * PageSize
        invariant 0 <= k <= PageCount && i == PageSize * k
        invariant i2c.log == old(i2c.log) + SweepTrace(deviceAddress, k)
        invariant forall p :: 0 <= p < buffer.Length ==>
          buffer[p] == if p < i && replies[p / PageSize].Ack? then replies[p / PageSize].data[p % PageSize] else old(buffer[p])
      {
        ghost var before := buffer[..];
        ghost var log := i2c.log;
        InPage(i, k);
        var ignored := ReadPage(i, buffer, i, replies[i / PageSize]);
        SweepStep(deviceAddress, k);
        AppendAssoc(old(i2c.log), SweepTrace(deviceAddress, k), ReadTrace(deviceAddress, PageSize * k, PageSize));
        forall p | 0 <= p < buffer.Length
          ensures buffer[p] == if p < i + PageSize && replies[p / PageSize].Ack? then replies[p / PageSize].data[p % PageSize] else old(buffer[p])
        {
          if i <= p < i + PageSize {
            InPage(p, k);
          } else {
            assert buffer[p] == before[p];
          }
        }
        i := i + PageSize;
        k := k + 1;
      }
    }

    /**
     * The inner loop of `write_array`: the bytes `data[i .. length)` go out
     * one `write_byte` at a time, byte `i + j` to `address + i + j`.
     */
    method WriteTail(address: U16, data: seq<U8>, i: nat, length: nat)
      requires i <= length <= |data|
      modifies i2c
      ensures i2c.log == old(i2c.log) + PlanTrace(deviceAddress, autoWait, TailWrites(address, data[..length], i, length))
    {
      ghost var d := data[..length];
      var j := 0;
      while j < length - i
        invariant 0 <= j <= length - i
        invariant i2c.log == old(i2c.log) + PlanTrace(deviceAddress, autoWait, TailWrites(address, d, i, i + j))
      {
        ghost var op := ByteWrite(Wrap16(address + i + j), d[i + j]);
        TailWritesNext(address, d, i, j);
        ghost var before := i2c.log;
        WriteByte(Wrap16(address + i + j), data[i + j]);
        PlanTraceSingle(deviceAddress, autoWait, op);
        LogStep(deviceAddress, autoWait, old(i2c.log), before, i2c.log, TailWrites(address, d, i, i + j), [op]);
        j := j + 1;
      }
    }

    /**
     * `write_array`: the data is walked in 64-byte strides from `address`;
     * each full stride goes out as `write_page` at `address + i`, and a
     * final stride shorter than a page goes out byte by byte with
     * `write_byte`. Addresses are reduced to 16 bits and nothing is
     * bounds-checked: keeping `address + length` inside the chip is the
     * caller's business.
     */
    method WriteArray(address: U16, data: seq<U8>, length: nat)
      requires length <= |data|
      modifies i2c
      ensures i2c.log == old(i2c.log) + PlanTrace(deviceAddress, autoWait, Plan(address, data[..length]))
    {
      ghost var done: seq<Op> := [];
      var i := 0;
      while i < length
        invariant done + PlanFrom(address, data[..length], i) == Plan(address, data[..length])
        invariant i2c.log == old(i2c.log) + PlanTrace(deviceAddress, autoWait, done)
      {
        done := WriteStride(address, data, length, i, done, old(i2c.log));
        i := i + PageSize;
      }
      assert done + [] == done;
    }

    /**
     * One pass of `write_array`'s loop at counter `i`: the page write of the
     * next 64 bytes when a whole page remains, otherwise the byte writes of
     * the rest. `done` is the calls made before this pass, whose traffic the
     * log already holds after `log0`; the result is the calls made after it.
     */
    method WriteStride(address: U16, data: seq<U8>, length: nat, i: nat, ghost done: seq<Op>, ghost log0: seq<Event>)
      returns (ghost done': seq<Op>)
      requires i < length <= |data|
      requires done + PlanFrom(address, data[..length], i) == Plan(address, data[..length])
      requires i2c.log == log0 + PlanTrace(deviceAddress, autoWait, done)
      modifies i2c
      ensures done' + PlanFrom(address, data[..length], i + PageSize) == Plan(address, data[..length])
      ensures i2c.log == log0 + PlanTrace(deviceAddress, autoWait, done')
    {
      ghost var d := data[..length];
      ghost var before := i2c.log;
      if length - i < PageSize {
        TailStep(deviceAddress, autoWait, address, d, i, done);
        WriteTail(address, data, i, length);
        LogStep(deviceAddress, autoWait, log0, before, i2c.log, done, TailWrites(address, d, i, length));
        done' := done + TailWrites(address, d, i, length);
      } else {
        ghost var page := PageWrite(Wrap16(address + i), d[i..i + PageSize]);
        PageStep(deviceAddress, autoWait, address, d, i, done);
        assert data[i..][..PageSize] == d[i..i + PageSize];
        WritePage(Wrap16(address + i), data[i..]);
        PlanTraceSingle(deviceAddress, autoWait, page);
        LogStep(deviceAddress, autoWait, log0, before, i2c.log, done, [page]);
        done' := done + [page];
      }
    }
  }
}
