/**
 * The EC01F driver object (`struct EC01F` in src/ec01f/mod.rs) and the
 * methods that move bytes over its UART. The receive side is the finite
 * stream `rx` with the position `pos` of the next read; the transmit side
 * is the trace `tx` of every byte written, in order.
 */
module Ec01f {
  import opened Text
  import opened Reader
  import At
  import Utf8

  /** `heapless::Vec<u8, N>`: a byte buffer of fixed capacity. */
  class LineBuffer {
    const data: array<byte>
    var len: nat

    ghost predicate Valid()
      reads this
    {
      len <= data.Length
    }

    /** `as_slice`. */
    function Contents(): seq<byte>
      reads this, data
      requires Valid()
    {
      data[..len]
    }

    /** `Vec::new`. */
    constructor (capacity: nat)
      ensures Valid() && fresh(data) && data.Length == capacity && Contents() == []
    {
      data := new byte[capacity];
      len := 0;
    }

    /** `push`: appends `c`, or refuses it when the buffer is full. */
    method Push(c: byte) returns (pushed: bool)
      requires Valid()
      modifies this`len, data
      ensures Valid()
      ensures pushed == (old(len) < data.Length)
      ensures Contents() == if pushed then old(Contents()) + [c] else old(Contents())
    {
      pushed := len < data.Length;
      if pushed {
        data[len] := c;
        len := len + 1;
      }
    }

    /** `clear`. */
    method Clear()
      requires Valid()
      modifies this`len
      ensures Valid() && Contents() == []
    {
      len := 0;
    }
  }

  /** The command that turns the module's echo off, sent by `new`. */
  const ECHO_OFF: seq<byte> := Ascii("ATE0")

  class Device {
    /** What the receive line will deliver, read by read after read. */
    const rx: seq<RxEvent>
    /** How many of those reads have been made. */
    var pos: nat
    /** Every byte written to the transmit line so far. */
    var tx: seq<byte>
    /**
     * The session object holding the exclusive borrow of this device, if
     * any; while it is set no one else may use the device.
     */
    ghost var lentTo: object?

    ghost predicate Valid()
      reads this
    {
      pos <= |rx|
    }

    /** `Self { tx, rx }`: a device on fresh lines, nothing read or written. */
    constructor (rx: seq<RxEvent>)
      ensures this.rx == rx && pos == 0 && tx == [] && lentTo == null && Valid()
    {
      this.rx := rx;
      pos := 0;
      tx := [];
      lentTo := null;
    }

    /**
     * `EC01F::new`: sends `ATE0` and waits for `Ok`. The device is returned
     * whatever the outcome, so that the bytes it sent stay visible; the
     * source hands it to the caller only when `r` is `Ok`.
     */
    static method New(rx: seq<RxEvent>) returns (dev: Device, r: Result<()>)
      ensures fresh(dev) && dev.rx == rx && dev.Valid() && dev.lentTo == null
      ensures dev.tx == ECHO_OFF + [LF]
      ensures Step(r, dev.pos) == AwaitOkFrom(At.ParseResponse, rx, 0)
      ensures r.Err?
    {
      AwaitOkNeverSucceeds(rx, 0);
      dev := new Device(rx);
      r := dev.WriteCmd(ECHO_OFF);
      if r.Ok? {
        r := dev.ReadOk();
      }
    }

    /** `read_byte`: one blocking read. */
    method ReadByte() returns (r: Result<byte>)
      requires Valid() && lentTo == null
      modifies this`pos
      ensures Valid()
      ensures Step(r, pos) == ReadByteAt(rx, old(pos))
    {
      if pos == |rx| {
        r := Err(RxError);
      } else {
        var event := rx[pos];
        pos := pos + 1;
        match event {
          case Byte(c) => r := Ok(c);
          case Fault => r := Err(RxError);
        }
      }
    }

    /** `read_line`: reads into `buffer` up to and including the first `<LF>`. */
    method ReadLine(buffer: LineBuffer) returns (r: Result<()>)
      requires Valid() && lentTo == null && buffer.Valid()
      modifies this`pos, buffer`len, buffer.data
      ensures Valid() && buffer.Valid()
      ensures LineStep(r, pos, buffer.Contents()) ==
              ReadLineFrom(rx, old(pos), old(buffer.Contents()), buffer.data.Length)
    {
      while true
        invariant Valid() && buffer.Valid()
        invariant ReadLineFrom(rx, pos, buffer.Contents(), buffer.data.Length) ==
                  ReadLineFrom(rx, old(pos), old(buffer.Contents()), buffer.data.Length)
        decreases |rx| - pos
      {
        var c := ReadByte();
        if c.Err? {
          return Err(c.error);
        }
        var pushed := buffer.Push(c.value);
        if !pushed {
          return Err(BufferFull);
        }
        if c.value == LF {
          return Ok(());
        }
      }
    }

    /** `write_str`: writes the bytes one at a time. */
    method WriteStr(s: seq<byte>)
      requires lentTo == null
      modifies this`tx
      ensures tx == old(tx) + s
    {
      var i := 0;
      while i < |s|
        invariant 0 <= i <= |s| && tx == old(tx) + s[..i]
      {
        tx := tx + [s[i]];
        i := i + 1;
      }
    }

    /** `write_cmd`: the command text, then one `<LF>`. */
    method WriteCmd(cmd: seq<byte>) returns (r: Result<()>)
      requires lentTo == null
      modifies this`tx
      ensures tx == old(tx) + cmd + [LF]
      ensures r == Ok(())
    {
      WriteStr(cmd);
      WriteStr([LF]);
      r := Ok(());
    }

    /**
     * `read_resp`: reads lines into a 1024-byte buffer, skipping `Empty`
     * ones, until a line is classified as something else or fails.
     */
    method ReadResp() returns (r: Result<At.Response>)
      requires Valid() && lentTo == null
      modifies this`pos
      ensures Valid()
      ensures Step(r, pos) == RespFrom(At.ParseResponse, rx, old(pos))
    {
      var buffer := new LineBuffer(LINE_CAPACITY);
      while true
        invariant Valid() && buffer.Valid() && fresh(buffer.data)
        invariant buffer.Contents() == [] && buffer.data.Length == LINE_CAPACITY
        invariant RespFrom(At.ParseResponse, rx, pos) == RespFrom(At.ParseResponse, rx, old(pos))
        decreases |rx| - pos
      {
        var l := ReadLine(buffer);
        if l.Err? {
          return Err(l.error);
        }
        var line := buffer.Contents();
        if !Utf8.Valid(line) {
          return Err(InvalidUtf8);
        }
        match At.ParseResponse(line)
        case Failed =>
          return Err(ParseErr);
        case Parsed(_, resp) =>
          if resp == At.Empty {
            buffer.Clear();
          } else {
            return Ok(resp);
          }
      }
    }

    /** `read_ok`: calls `read_resp` until it yields `Ok`. */
    method ReadOk() returns (r: Result<()>)
      requires Valid() && lentTo == null
      modifies this`pos
      ensures Valid()
      ensures Step(r, pos) == AwaitOkFrom(At.ParseResponse, rx, old(pos))
    {
      while true
        invariant Valid()
        invariant AwaitOkFrom(At.ParseResponse, rx, pos) == AwaitOkFrom(At.ParseResponse, rx, old(pos))
        decreases |rx| - pos
      {
        var resp := ReadResp();
        if resp.Err? {
          return Err(resp.error);
        }
        if resp.value == At.Ok {
          return Ok(());
        }
      }
    }
  }
}
