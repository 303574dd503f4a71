/**
 * The three Pico SDK calls the driver depends on, seen from outside:
 * `i2c_write_blocking`, `i2c_read_blocking` and `sleep_ms`. Their own code
 * is not part of this model. An I2C peripheral (`i2c_inst_t`) is a `Bus`
 * object that records every call in one ordered log, so that the order of
 * pauses relative to transfers is observable; what a device answers to a
 * read is supplied by the caller as a `Reply`.
 */
module PicoSdk {
  import opened Wire

  class Bus {
    /** Every transfer and pause so far, oldest first. */
    var log: seq<Event>

    constructor ()
      ensures log == []
    {
      log := [];
    }

    /** `i2c_write_blocking(i2c, addr, src, |src|, nostop)`; its byte count is never used by the driver. */
    method WriteBlocking(addr7: U8, src: seq<U8>, nostop: bool)
      modifies this
      ensures log == old(log) + [Write(addr7, src, nostop)]
    {
      log := log + [Write(addr7, src, nostop)];
    }

    /**
     * `i2c_read_blocking(i2c, addr, dst + offset, len, nostop)`: on an
     * acknowledged read the bytes land in `dst[offset .. offset + len)` and
     * the count `len` is returned; otherwise `dst` is left as it was and the
     * result is PICO_ERROR_GENERIC.
     */
    method ReadBlocking(addr7: U8, dst: array<U8>, offset: nat, len: nat, nostop: bool, reply: Reply)
      returns (res: int)
      requires offset + len <= dst.Length
      requires Fits(reply, len)
      modifies this, dst
      ensures log == old(log) + [Read(addr7, len, nostop)]
      ensures res == if reply.Ack? then len else PicoErrorGeneric
      ensures forall p :: 0 <= p < dst.Length ==>
        dst[p] == if reply.Ack? && offset <= p < offset + len then reply.data[p - offset] else old(dst[p])
    {
      log := log + [Read(addr7, len, nostop)];
      match reply
      case Ack(data) =>
        forall p | offset <= p < offset + len {
          dst[p] := data[p - offset];
        }
        res := len;
      case Nack =>
        res := PicoErrorGeneric;
    }

    /** `sleep_ms(ms)`: only the pause's place in the log is modelled, not time. */
    method SleepMs(ms: nat)
      modifies this
      ensures log == old(log) + [Sleep(ms)]
    {
      log := log + [Sleep(ms)];
    }
  }
}
