/**
 * What the EC01F driver's receive side computes, as functions of the UART's
 * receive stream: `read_byte`, `read_line`, `read_resp` and `read_ok` of
 * src/ec01f/mod.rs. The stream is the finite sequence of outcomes the
 * blocking reads will produce; a position says how much of it is consumed.
 * The driver's methods in module Ec01f are proved to compute these.
 */
module Reader {
  import opened Text
  import Utf8
  import At

  /** One outcome of a blocking `rx.read()`: a byte or a transport fault. */
  datatype RxEvent = Byte(b: byte) | Fault

  /** The driver's error kinds (`Error<TX, RX>`, without the transport's own error values). */
  datatype Error = TxError | RxError | Timeout | BufferFull | InvalidUtf8 | ParseErr

  datatype Result<T> = Ok(value: T) | Err(error: Error)

  /** The capacity of the line buffer `read_resp` allocates. */
  const LINE_CAPACITY: nat := 1024

  /** A result together with the receive position after the call. */
  datatype Step<T> = Step(r: Result<T>, pos: nat)

  /** The outcome of `read_line`: result, receive position and buffer contents. */
  datatype LineStep = LineStep(r: Result<()>, pos: nat, buffer: seq<byte>)

  /** The receive stream that delivers exactly the given bytes. */
  function Received(bs: seq<byte>): (rx: seq<RxEvent>)
    ensures |rx| == |bs| && forall k :: 0 <= k < |bs| ==> rx[k] == Byte(bs[k])
  {
    seq(|bs|, k requires 0 <= k < |bs| => Byte(bs[k]))
  }

  /** The events `rx[from..from + |bs|]` are exactly the bytes `bs`. */
  ghost predicate Carries(rx: seq<RxEvent>, from: nat, bs: seq<byte>) {
    from + |bs| <= |rx| && forall k :: 0 <= k < |bs| ==> rx[from + k] == Byte(bs[k])
  }

  /**
   * `read_byte`: the next event; an exhausted stream is a failed read that
   * consumes nothing.
   */
  function ReadByteAt(rx: seq<RxEvent>, pos: nat): (s: Step<byte>)
    requires pos <= |rx|
    ensures s.pos == if pos < |rx| then pos + 1 else pos
    ensures s.r.Ok? <==> pos < |rx| && rx[pos].Byte?
    ensures s.r.Ok? ==> rx[pos] == Byte(s.r.value)
    ensures s.r.Err? ==> s.r.error == RxError
  {
    if pos == |rx| then Step(Err(RxError), pos)
    else match rx[pos]
      case Byte(c) => Step(Ok(c), pos + 1)
      case Fault => Step(Err(RxError), pos + 1)
  }

  /**
   * `read_line`: read bytes, pushing each onto `buffer`, until an `<LF>` has
   * been pushed. A push onto a full buffer fails with `BufferFull`, the byte
   * being dropped; a failed read fails with `RxError`.
   */
  function ReadLineFrom(rx: seq<RxEvent>, pos: nat, buffer: seq<byte>, capacity: nat): (s: LineStep)
    requires pos <= |rx|
    ensures pos <= s.pos <= |rx|
    ensures s.r.Ok? ==> s.pos > pos
    ensures s.r.Ok? || s.r.error == BufferFull || s.r.error == RxError
    ensures buffer <= s.buffer
    decreases |rx| - pos
  {
    var c := ReadByteAt(rx, pos);
    if c.r.Err? then LineStep(Err(c.r.error), c.pos, buffer)
    else if |buffer| >= capacity then LineStep(Err(BufferFull), c.pos, buffer)
    else if c.r.value == LF then LineStep(Ok(()), c.pos, buffer + [c.r.value])
    else ReadLineFrom(rx, c.pos, buffer + [c.r.value], capacity)
  }

  /**
   * `read_resp`: read a line into a fresh buffer, reject it if it is not
   * UTF-8, classify it; an `Empty` line is discarded (the buffer cleared) and
   * the next one read; any other response, or a failure, ends the call.
   * `classify` is the response grammar.
   */
  function RespFrom(classify: seq<byte> -> At.ParseResult, rx: seq<RxEvent>, pos: nat): (s: Step<At.Response>)
    requires pos <= |rx|
    ensures pos <= s.pos <= |rx|
    ensures s.r.Ok? ==> s.pos > pos
    ensures s.r.Err? ==> s.r.error != TxError && s.r.error != Timeout
    decreases |rx| - pos
  {
    var line := ReadLineFrom(rx, pos, [], LINE_CAPACITY);
    if line.r.Err? then Step(Err(line.r.error), line.pos)
    else if !Utf8.Valid(line.buffer) then Step(Err(InvalidUtf8), line.pos)
    else match classify(line.buffer)
      case Failed => Step(Err(ParseErr), line.pos)
      case Parsed(_, resp) =>
        if resp == At.Empty then RespFrom(classify, rx, line.pos)
        else Step(Ok(resp), line.pos)
  }

  /**
   * `read_ok`: call `read_resp` until it yields `Ok`, discarding every other
   * response; the first failure ends the wait.
   */
  function AwaitOkFrom(classify: seq<byte> -> At.ParseResult, rx: seq<RxEvent>, pos: nat): (s: Step<()>)
    requires pos <= |rx|
    ensures pos <= s.pos <= |rx|
    ensures s.r.Err? ==> s.r.error != TxError && s.r.error != Timeout
    decreases |rx| - pos
  {
    var resp := RespFrom(classify, rx, pos);
    if resp.r.Err? then Step(Err(resp.r.error), resp.pos)
    else if resp.r.value == At.Ok then Step(Ok(()), resp.pos)
    else AwaitOkFrom(classify, rx, resp.pos)
  }

  // ------------------------------------------------------- read_line

  /** Prepending the byte at `pos` to what the stream carries from `pos + 1`. */
  lemma CarriesCons(rx: seq<RxEvent>, pos: nat, b: byte, tail: seq<byte>)
    requires pos < |rx| && rx[pos] == Byte(b) && Carries(rx, pos + 1, tail)
    ensures Carries(rx, pos, [b] + tail)
  {
    var bs := [b] + tail;
    forall k | 0 <= k < |bs| ensures rx[pos + k] == Byte(bs[k]) {
      if k > 0 {
        assert bs[k] == tail[k - 1];
        assert rx[pos + 1 + (k - 1)] == Byte(tail[k - 1]);
      }
    }
  }

  /** What the stream carries from `pos`, without its first byte, it carries from `pos + 1`. */
  lemma CarriesTail(rx: seq<RxEvent>, pos: nat, bs: seq<byte>)
    requires |bs| > 0 && Carries(rx, pos, bs)
    ensures rx[pos] == Byte(bs[0]) && Carries(rx, pos + 1, bs[1..])
  {
    assert rx[pos + 0] == Byte(bs[0]);
    forall k | 0 <= k < |bs[1..]| ensures rx[pos + 1 + k] == Byte(bs[1..][k]) {
      assert rx[pos + (k + 1)] == Byte(bs[k + 1]);
    }
  }

  /**
   * A successful `read_line` leaves the previous contents followed by the
   * bytes it read, which are the events consumed and form one line: an `<LF>`
   * at the end and nowhere before it. The buffer stays within its capacity.
   */
  lemma {:induction false} ReadLineSuccess(rx: seq<RxEvent>, pos: nat, buffer: seq<byte>, capacity: nat)
    requires pos <= |rx| && ReadLineFrom(rx, pos, buffer, capacity).r.Ok?
    ensures var s := ReadLineFrom(rx, pos, buffer, capacity);
      var line := s.buffer[|buffer|..];
      |s.buffer| <= capacity && s.buffer == buffer + line &&
      |line| == s.pos - pos && Carries(rx, pos, line) && IsLine(line)
    decreases |rx| - pos
  {
    var s := ReadLineFrom(rx, pos, buffer, capacity);
    var b := ReadByteAt(rx, pos).r.value;
    var line := s.buffer[|buffer|..];
    if b == LF {
      assert line == [b];
    } else {
      var buffer' := buffer + [b];
      ReadLineSuccess(rx, pos + 1, buffer', capacity);
      var tail := s.buffer[|buffer'|..];
      assert line == [b] + tail;
      CarriesCons(rx, pos, b, tail);
      forall k | 0 <= k < |line| - 1 ensures line[k] != LF {
        if k > 0 { assert line[k] == tail[k - 1]; }
      }
    }
  }

  /**
   * `BufferFull`: the buffer is full and holds its previous contents and the
   * bytes read before the one that did not fit, none of them an `<LF>`; that
   * last byte was consumed and dropped.
   */
  lemma {:induction false} ReadLineFull(rx: seq<RxEvent>, pos: nat, buffer: seq<byte>, capacity: nat)
    requires pos <= |rx| && ReadLineFrom(rx, pos, buffer, capacity).r == Err(BufferFull)
    ensures var s := ReadLineFrom(rx, pos, buffer, capacity);
      var partial := s.buffer[|buffer|..];
      s.buffer == buffer + partial && |s.buffer| >= capacity &&
      |partial| == s.pos - pos - 1 && Carries(rx, pos, partial) && rx[s.pos - 1].Byte? &&
      NoLF(partial)
    decreases |rx| - pos
  {
    var s := ReadLineFrom(rx, pos, buffer, capacity);
    var partial := s.buffer[|buffer|..];
    if |buffer| < capacity {
      var b := ReadByteAt(rx, pos).r.value;
      var buffer' := buffer + [b];
      ReadLineFull(rx, pos + 1, buffer', capacity);
      var tail := s.buffer[|buffer'|..];
      assert partial == [b] + tail;
      CarriesCons(rx, pos, b, tail);
      forall k | 0 <= k < |partial| ensures partial[k] != LF {
        if k > 0 { assert partial[k] == tail[k - 1]; }
      }
    } else {
      assert partial == [];
    }
  }

  /**
   * `RxError`: the buffer holds its previous contents and the bytes read,
   * none of them an `<LF>`; the stream is exhausted or its last consumed
   * event is a fault.
   */
  lemma {:induction false} ReadLineRxError(rx: seq<RxEvent>, pos: nat, buffer: seq<byte>, capacity: nat)
    requires pos <= |rx| && ReadLineFrom(rx, pos, buffer, capacity).r == Err(RxError)
    ensures var s := ReadLineFrom(rx, pos, buffer, capacity);
      var partial := s.buffer[|buffer|..];
      s.buffer == buffer + partial && Carries(rx, pos, partial) && NoLF(partial) &&
      ((s.pos == |rx| && |partial| == s.pos - pos) ||
       (|partial| == s.pos - pos - 1 && rx[s.pos - 1] == Fault))
    decreases |rx| - pos
  {
    var s := ReadLineFrom(rx, pos, buffer, capacity);
    var partial := s.buffer[|buffer|..];
    var c := ReadByteAt(rx, pos);
    if c.r.Ok? {
      var b := c.r.value;
      var buffer' := buffer + [b];
      ReadLineRxError(rx, pos + 1, buffer', capacity);
      var tail := s.buffer[|buffer'|..];
      assert partial == [b] + tail;
      CarriesCons(rx, pos, b, tail);
      forall k | 0 <= k < |partial| ensures partial[k] != LF {
        if k > 0 { assert partial[k] == tail[k - 1]; }
      }
    } else {
      assert partial == [];
    }
  }

  /**
   * Converse of `ReadLineSuccess`: a stream carrying a line that fits the
   * buffer is read as exactly that line.
   */
  lemma {:induction false} ReadLineOf(rx: seq<RxEvent>, pos: nat, buffer: seq<byte>, capacity: nat, line: seq<byte>)
    requires pos <= |rx| && Carries(rx, pos, line) && IsLine(line)
    requires |buffer| + |line| <= capacity
    ensures ReadLineFrom(rx, pos, buffer, capacity) == LineStep(Ok(()), pos + |line|, buffer + line)
    decreases |line|
  {
    CarriesTail(rx, pos, line);
    if |line| > 1 {
      var tail := line[1..];
      assert line[0] != LF;
      assert IsLine(tail) by {
        forall k | 0 <= k < |tail| - 1 ensures tail[k] != LF {
          assert tail[k] == line[k + 1];
        }
      }
      ReadLineOf(rx, pos + 1, buffer + [line[0]], capacity, tail);
      assert buffer + [line[0]] + tail == buffer + line;
    } else {
      assert buffer + [line[0]] == buffer + line;
    }
  }

  /**
   * More bytes than the buffer has room for, with no `<LF>` among those that
   * fit, make `read_line` fail with `BufferFull`.
   */
  lemma {:induction false} ReadLineOverflow(rx: seq<RxEvent>, pos: nat, buffer: seq<byte>, capacity: nat, bs: seq<byte>)
    requires pos <= |rx| && Carries(rx, pos, bs)
    requires |buffer| <= capacity && |buffer| + |bs| == capacity + 1
    requires forall k :: 0 <= k < |bs| - 1 ==> bs[k] != LF
    ensures ReadLineFrom(rx, pos, buffer, capacity).r == Err(BufferFull)
    decreases |bs|
  {
    CarriesTail(rx, pos, bs);
    if |buffer| < capacity {
      var tail := bs[1..];
      assert bs[0] != LF;
      forall k | 0 <= k < |tail| - 1 ensures tail[k] != LF {
        assert tail[k] == bs[k + 1];
      }
      ReadLineOverflow(rx, pos + 1, buffer + [bs[0]], capacity, tail);
    }
  }

  // ------------------------------------------------------- read_resp

  /** `read_resp` never hands an `Empty` response to its caller, whatever the grammar. */
  lemma {:induction false} RespNeverEmpty(classify: seq<byte> -> At.ParseResult, rx: seq<RxEvent>, pos: nat)
    requires pos <= |rx|
    ensures RespFrom(classify, rx, pos).r != Ok(At.Empty)
    decreases |rx| - pos
  {
    var line := ReadLineFrom(rx, pos, [], LINE_CAPACITY);
    if line.r.Ok? && Utf8.Valid(line.buffer) && classify(line.buffer).Parsed? &&
       classify(line.buffer).resp == At.Empty {
      RespNeverEmpty(classify, rx, line.pos);
    }
  }

  /**
   * With the driver's grammar, `read_resp` can only fail: a line ends at its
   * first `<LF>`, so the only line the grammar classifies is `<CR><LF>`,
   * which is `Empty` and skipped; every other well-formed line is a
   * `ParseErr`. `Ok`, `Error` and `CmeError` are never returned.
   */
  lemma {:induction false} RespNeverDecisive(rx: seq<RxEvent>, pos: nat)
    requires pos <= |rx|
    ensures RespFrom(At.ParseResponse, rx, pos).r.Err?
    decreases |rx| - pos
  {
    var line := ReadLineFrom(rx, pos, [], LINE_CAPACITY);
    if line.r.Ok? {
      ReadLineSuccess(rx, pos, [], LINE_CAPACITY);
      assert line.buffer == line.buffer[0..];
      At.LineClassification(line.buffer);
      if line.buffer == CRLF {
        Utf8.AsciiIsValid(CRLF);
        RespNeverDecisive(rx, line.pos);
      }
    }
  }

  /** Consequently `read_ok` never returns `Ok(())` with the driver's grammar. */
  lemma AwaitOkNeverSucceeds(rx: seq<RxEvent>, pos: nat)
    requires pos <= |rx|
    ensures AwaitOkFrom(At.ParseResponse, rx, pos).r.Err?
  {
    RespNeverDecisive(rx, pos);
  }

  /**
   * `read_ok`, started at `p`, reaches `q` by discarding responses: `q` is
   * `p`, or `read_resp` at `p` succeeds with a response other than `Ok` and
   * the wait reaches `q` from where that call stopped.
   */
  ghost predicate SkipsTo(classify: seq<byte> -> At.ParseResult, rx: seq<RxEvent>, p: nat, q: nat)
    requires p <= |rx|
    decreases |rx| - p
  {
    p == q ||
    (var s := RespFrom(classify, rx, p);
     s.r.Ok? && s.r.value != At.Ok && SkipsTo(classify, rx, s.pos, q))
  }

  /** The `read_resp` at `q` is the one that ends a wait with outcome `s`. */
  ghost predicate EndsWith(classify: seq<byte> -> At.ParseResult, rx: seq<RxEvent>, q: nat, s: Step<()>)
    requires q <= |rx|
  {
    var last := RespFrom(classify, rx, q);
    last.pos == s.pos &&
    (s.r.Ok? ==> last.r == Ok(At.Ok)) &&
    (s.r.Err? ==> last.r == Err(s.r.error))
  }

  /**
   * `read_ok` ends with the result of its last `read_resp`: `Ok(())` only
   * right after an `Ok` response, otherwise the error that `read_resp`
   * reported; every response before it succeeded, was not `Ok`, and was
   * discarded.
   */
  lemma {:induction false} AwaitOkEndsWithLastResp(classify: seq<byte> -> At.ParseResult, rx: seq<RxEvent>, pos: nat)
    requires pos <= |rx|
    ensures exists q ::
      pos <= q <= |rx| && SkipsTo(classify, rx, pos, q) && EndsWith(classify, rx, q, AwaitOkFrom(classify, rx, pos))
    decreases |rx| - pos
  {
    var resp := RespFrom(classify, rx, pos);
    if resp.r.Ok? && resp.r.value != At.Ok {
      AwaitOkEndsWithLastResp(classify, rx, resp.pos);
      var q :|
        resp.pos <= q <= |rx| && SkipsTo(classify, rx, resp.pos, q) && EndsWith(classify, rx, q, AwaitOkFrom(classify, rx, resp.pos));
      assert SkipsTo(classify, rx, pos, q);
    } else {
      assert SkipsTo(classify, rx, pos, pos);
    }
  }

  /** A line of more than 1024 bytes without `<LF>` makes `read_resp` fail with `BufferFull`. */
  lemma LongLineIsBufferFull(classify: seq<byte> -> At.ParseResult, rx: seq<RxEvent>, pos: nat, bs: seq<byte>)
    requires pos <= |rx| && Carries(rx, pos, bs)
    requires |bs| == LINE_CAPACITY + 1
    requires forall k :: 0 <= k < LINE_CAPACITY ==> bs[k] != LF
    ensures RespFrom(classify, rx, pos).r == Err(BufferFull)
  {
    ReadLineOverflow(rx, pos, [], LINE_CAPACITY, bs);
  }

  /** A line that is not UTF-8 is rejected, after it is consumed, before the grammar sees it. */
  lemma InvalidLineRejected(classify: seq<byte> -> At.ParseResult, rx: seq<RxEvent>, pos: nat, line: seq<byte>)
    requires pos <= |rx| && Carries(rx, pos, line) && IsLine(line)
    requires |line| <= LINE_CAPACITY && !Utf8.Valid(line)
    ensures RespFrom(classify, rx, pos) == Step(Err(InvalidUtf8), pos + |line|)
  {
    ReadLineOf(rx, pos, [], LINE_CAPACITY, line);
    assert [] + line == line;
  }

  /** For instance the line holding the overlong form `C0 80` of NUL. */
  lemma OverlongNulRejected(classify: seq<byte> -> At.ParseResult)
    ensures RespFrom(classify, Received([0xC0, 0x80, LF]), 0) == Step(Err(InvalidUtf8), 3)
  {
    var line: seq<byte> := [0xC0, 0x80, LF];
    assert !Utf8.Valid(line) by {
      assert Utf8.CharLength(line) == 0;
    }
    InvalidLineRejected(classify, Received(line), 0, line);
  }

  // ---------------------------------------------- records and the two grammars

  /** The first line of a record is `<CR><LF>`, the second is the record's remainder. */
  lemma RecordLines(resp: At.Response, rest: seq<byte>)
    requires At.WellFormed(resp) && resp != At.Empty
    ensures var line2 := At.Record(resp)[2..];
      Carries(Received(At.Record(resp) + rest), 0, CRLF) &&
      Carries(Received(At.Record(resp) + rest), 2, line2) &&
      IsLine(line2) && |line2| <= LINE_CAPACITY && AllAscii(line2)
  {
    var rec := At.Record(resp);
    var bytes := rec + rest;
    var rx := Received(bytes);
    var line2 := rec[2..];
    assert rec[..2] == CRLF;
    assert Carries(rx, 0, CRLF) by {
      assert bytes[0] == CR && bytes[1] == LF;
    }
    assert Carries(rx, 2, line2) by {
      forall k | 0 <= k < |line2| ensures rx[2 + k] == Byte(line2[k]) {
        assert bytes[2 + k] == rec[2 + k];
      }
    }
    SecondLine(resp);
  }

  /** The second line of a record is a short ASCII line. */
  lemma SecondLine(resp: At.Response)
    requires At.WellFormed(resp) && resp != At.Empty
    ensures var line2 := At.Record(resp)[2..];
      IsLine(line2) && |line2| <= LINE_CAPACITY && AllAscii(line2)
  {
    match resp
    case Ok =>
      assert At.Record(resp)[2..] == At.OK_LINE by { At.TagText(); }
    case Error =>
      assert At.Record(resp)[2..] == At.ERROR_LINE by { At.TagText(); }
    case CmeError(v) =>
      CmeSecondLine(v);
  }

  /** The second line of a `+CME ERROR` record is a short ASCII line. */
  lemma CmeSecondLine(v: nat)
    requires v <= At.I32_MAX
    ensures var line2 := At.Record(At.CmeError(v))[2..];
      IsLine(line2) && |line2| <= LINE_CAPACITY && AllAscii(line2)
  {
    var ds := DecimalText(v);
    At.CmeRecordLine(v);
    assert |ds| <= 10 by { DecimalTextShort(v); }
    assert AllAscii(ds) && NoLF(ds) by { DigitsAreAscii(ds); }
    assert AllAscii(At.CME_LINE) && NoLF(At.CME_LINE);
    TerminatedLine(At.CME_LINE, ds);
  }

  /** Two ASCII pieces without `<LF>`, then `<CR><LF>`, form one ASCII line. */
  lemma TerminatedLine(head: seq<byte>, body: seq<byte>)
    requires AllAscii(head) && NoLF(head) && AllAscii(body) && NoLF(body)
    ensures var line := head + (body + CRLF);
      IsLine(line) && AllAscii(line) && |line| == |head| + |body| + 2
  {
    var line := head + (body + CRLF);
    forall k | 0 <= k < |line| ensures line[k] < 128 && (k < |line| - 1 ==> line[k] != LF) {
      if k < |head| { assert line[k] == head[k]; }
      else if k < |head| + |body| { assert line[k] == body[k - |head|]; }
    }
  }

  /**
   * When the stream carries a well-formed UTF-8 line, `read_resp` classifies
   * it: `Empty` moves on to the next line, any other response is returned,
   * a grammar failure is a `ParseErr`.
   */
  lemma RespOfLine(classify: seq<byte> -> At.ParseResult, rx: seq<RxEvent>, pos: nat, line: seq<byte>)
    requires pos <= |rx| && Carries(rx, pos, line) && IsLine(line)
    requires |line| <= LINE_CAPACITY && Utf8.Valid(line)
    ensures RespFrom(classify, rx, pos) ==
      match classify(line)
      case Failed => Step(Err(ParseErr), pos + |line|)
      case Parsed(_, resp) =>
        if resp == At.Empty then RespFrom(classify, rx, pos + |line|)
        else Step(Ok(resp), pos + |line|)
  {
    var l := ReadLineFrom(rx, pos, [], LINE_CAPACITY);
    assert l == LineStep(Ok(()), pos + |line|, line) by {
      ReadLineOf(rx, pos, [], LINE_CAPACITY, line);
      assert [] + line == line;
    }
    assert l.r.Ok? && Utf8.Valid(l.buffer);
  }

  /**
   * As written, a module record `<CR><LF>OK<CR><LF>`, `<CR><LF>ERROR<CR><LF>`
   * or `<CR><LF>+CME ERROR: n<CR><LF>` makes `read_resp` fail with
   * `ParseErr`: its first line is skipped as `Empty` and its second line
   * does not start with `<CR><LF>`.
   */
  lemma RecordRejected(resp: At.Response, rest: seq<byte>)
    requires At.WellFormed(resp) && resp != At.Empty
    ensures RespFrom(At.ParseResponse, Received(At.Record(resp) + rest), 0) == Step(Err(ParseErr), |At.Record(resp)|)
  {
    var line2 := At.Record(resp)[2..];
    RecordLines(resp, rest);
    At.LineClassification(CRLF);
    assert At.ParseResponse(line2) == At.Failed by {
      assert line2 != CRLF;
      At.LineClassification(line2);
    }
    BlankThenLine(At.ParseResponse, Received(At.Record(resp) + rest), 0, line2);
  }

  /**
   * With the line-framed grammar, each such record is returned by
   * `read_resp` as its response, after the whole record is consumed.
   */
  lemma RecordAccepted(resp: At.Response, rest: seq<byte>)
    requires At.WellFormed(resp) && resp != At.Empty
    ensures RespFrom(At.ParseLineResponse, Received(At.Record(resp) + rest), 0) == Step(Ok(resp), |At.Record(resp)|)
  {
    var rx := Received(At.Record(resp) + rest);
    ReceivedCarries(At.Record(resp) + rest);
    CarriesSplit(rx, 0, At.Record(resp), rest);
    RecordAcceptedAt(resp, rx, 0);
  }

  /** The same wherever the record starts in the stream. */
  lemma RecordAcceptedAt(resp: At.Response, rx: seq<RxEvent>, pos: nat)
    requires At.WellFormed(resp) && resp != At.Empty && Carries(rx, pos, At.Record(resp))
    ensures RespFrom(At.ParseLineResponse, rx, pos) == Step(Ok(resp), pos + |At.Record(resp)|)
  {
    var rec := At.Record(resp);
    var line2 := rec[2..];
    assert rec == CRLF + line2 by {
      assert rec[..2] == CRLF;
    }
    CarriesSplit(rx, pos, CRLF, line2);
    SecondLine(resp);
    At.LineRecordRoundTrip(resp);
    BlankThenLine(At.ParseLineResponse, rx, pos, line2);
  }

  /** A stream carries the bytes it was made from. */
  lemma ReceivedCarries(bs: seq<byte>)
    ensures Carries(Received(bs), 0, bs)
  {
  }

  /** What a stream carries splits where its bytes do. */
  lemma CarriesSplit(rx: seq<RxEvent>, pos: nat, a: seq<byte>, b: seq<byte>)
    requires Carries(rx, pos, a + b)
    ensures Carries(rx, pos, a) && Carries(rx, pos + |a|, b)
  {
    forall k | 0 <= k < |a| ensures rx[pos + k] == Byte(a[k]) {
      assert (a + b)[k] == a[k];
    }
    forall k | 0 <= k < |b| ensures rx[pos + |a| + k] == Byte(b[k]) {
      assert (a + b)[|a| + k] == b[k];
    }
  }

  /**
   * `read_ok` discards every response before the `Ok`: with the line-framed
   * grammar, an `ERROR` record and a `+CME ERROR: 7` record, then an `OK`
   * record, make it return `Ok(())` after consuming all three.
   */
  lemma DiscardsUntilOk()
    ensures var bytes := At.Record(At.Error) + At.Record(At.CmeError(7)) + At.Record(At.Ok);
      AwaitOkFrom(At.ParseLineResponse, Received(bytes), 0) == Step(Ok(()), |bytes|)
  {
    var bytes := At.Record(At.Error) + At.Record(At.CmeError(7)) + At.Record(At.Ok);
    ReceivedCarries(bytes);
    CarriesSplit3(Received(bytes), 0, At.Record(At.Error), At.Record(At.CmeError(7)), At.Record(At.Ok));
    ErrorsThenOk(Received(bytes), 0, 7);
  }

  /**
   * With the line-framed grammar, wherever an `ERROR` record, a `+CME ERROR`
   * record with any code and an `OK` record follow one another.
   */
  lemma ErrorsThenOk(rx: seq<RxEvent>, pos: nat, code: int)
    requires 0 <= code <= At.I32_MAX
    requires Carries(rx, pos, At.Record(At.Error))
    requires Carries(rx, pos + |At.Record(At.Error)|, At.Record(At.CmeError(code)))
    requires Carries(rx, pos + |At.Record(At.Error)| + |At.Record(At.CmeError(code))|, At.Record(At.Ok))
    ensures AwaitOkFrom(At.ParseLineResponse, rx, pos) ==
      Step(Ok(()), pos + |At.Record(At.Error)| + |At.Record(At.CmeError(code))| + |At.Record(At.Ok)|)
  {
    var p1 := pos + |At.Record(At.Error)|;
    var p2 := p1 + |At.Record(At.CmeError(code))|;
    var e := p2 + |At.Record(At.Ok)|;
    assert SkipsTo(At.ParseLineResponse, rx, pos, p2) by {
      assert SkipsTo(At.ParseLineResponse, rx, p1, p2) by {
        RecordAcceptedAt(At.CmeError(code), rx, p1);
        SkipOne(At.ParseLineResponse, rx, p1, p2, p2);
      }
      RecordAcceptedAt(At.Error, rx, pos);
      SkipOne(At.ParseLineResponse, rx, pos, p1, p2);
    }
    assert RespFrom(At.ParseLineResponse, rx, p2) == Step(Ok(At.Ok), e) by {
      RecordAcceptedAt(At.Ok, rx, p2);
    }
    SkipsThenOk(At.ParseLineResponse, rx, pos, p2, e);
  }

  /** What a stream carries splits in three where its bytes do. */
  lemma CarriesSplit3(rx: seq<RxEvent>, pos: nat, a: seq<byte>, b: seq<byte>, c: seq<byte>)
    requires Carries(rx, pos, a + b + c)
    ensures Carries(rx, pos, a) && Carries(rx, pos + |a|, b) && Carries(rx, pos + |a| + |b|, c)
  {
    CarriesSplit(rx, pos, a + b, c);
    CarriesSplit(rx, pos, a, b);
  }

  /** A response other than `Ok` that ends at `next` extends a chain of them from `next`. */
  lemma SkipOne(classify: seq<byte> -> At.ParseResult, rx: seq<RxEvent>, p: nat, next: nat, q: nat)
    requires p <= |rx| && RespFrom(classify, rx, p).pos == next
    requires RespFrom(classify, rx, p).r.Ok? && RespFrom(classify, rx, p).r.value != At.Ok
    requires SkipsTo(classify, rx, next, q)
    ensures SkipsTo(classify, rx, p, q)
  {
  }

  /** A chain of responses other than `Ok`, then an `Ok`: `read_ok` returns `Ok(())` right after the `Ok`. */
  lemma {:induction false} SkipsThenOk(classify: seq<byte> -> At.ParseResult, rx: seq<RxEvent>, p: nat, q: nat, e: nat)
    requires p <= |rx| && q <= |rx| && SkipsTo(classify, rx, p, q) && RespFrom(classify, rx, q) == Step(Ok(At.Ok), e)
    ensures AwaitOkFrom(classify, rx, p) == Step(Ok(()), e)
    decreases |rx| - p
  {
    if p != q {
      var s := RespFrom(classify, rx, p);
      SkipsThenOk(classify, rx, s.pos, q, e);
    }
  }

  /** With the line-framed grammar, an `OK` record ends `read_ok` with `Ok(())`. */
  lemma OkRecordEndsWait(rx: seq<RxEvent>, pos: nat)
    requires Carries(rx, pos, At.Record(At.Ok))
    ensures AwaitOkFrom(At.ParseLineResponse, rx, pos) == Step(Ok(()), pos + |At.Record(At.Ok)|)
  {
    RecordAcceptedAt(At.Ok, rx, pos);
  }

  /** A blank line classified `Empty` and then an ASCII line: `read_resp` classifies the second line. */
  lemma BlankThenLine(classify: seq<byte> -> At.ParseResult, rx: seq<RxEvent>, pos: nat, line: seq<byte>)
    requires Carries(rx, pos, CRLF) && Carries(rx, pos + 2, line) && IsLine(line)
    requires |line| <= LINE_CAPACITY && AllAscii(line)
    requires classify(CRLF) == At.Parsed([], At.Empty)
    ensures RespFrom(classify, rx, pos) ==
      match classify(line)
      case Failed => Step(Err(ParseErr), pos + 2 + |line|)
      case Parsed(_, resp) =>
        if resp == At.Empty then RespFrom(classify, rx, pos + 2 + |line|)
        else Step(Ok(resp), pos + 2 + |line|)
  {
    SkipBlank(classify, rx, pos);
    RespOfAsciiLine(classify, rx, pos + 2, line);
  }

  /** A blank line that the grammar classifies as `Empty` is skipped by `read_resp`. */
  lemma SkipBlank(classify: seq<byte> -> At.ParseResult, rx: seq<RxEvent>, pos: nat)
    requires pos <= |rx| && Carries(rx, pos, CRLF) && classify(CRLF) == At.Parsed([], At.Empty)
    ensures RespFrom(classify, rx, pos) == RespFrom(classify, rx, pos + 2)
  {
    Utf8.AsciiIsValid(CRLF);
    RespOfLine(classify, rx, pos, CRLF);
  }

  /** `RespOfLine` for a line of ASCII text, which is always well-formed UTF-8. */
  lemma RespOfAsciiLine(classify: seq<byte> -> At.ParseResult, rx: seq<RxEvent>, pos: nat, line: seq<byte>)
    requires pos <= |rx| && Carries(rx, pos, line) && IsLine(line)
    requires |line| <= LINE_CAPACITY && AllAscii(line)
    ensures RespFrom(classify, rx, pos) ==
      match classify(line)
      case Failed => Step(Err(ParseErr), pos + |line|)
      case Parsed(_, resp) =>
        if resp == At.Empty then RespFrom(classify, rx, pos + |line|)
        else Step(Ok(resp), pos + |line|)
  {
    Utf8.AsciiIsValid(line);
    RespOfLine(classify, rx, pos, line);
  }

  /**
   * As written, `<CR><LF>` followed by the record `<CR><LF>OK<CR><LF>` is a
   * `ParseErr`; with the line-framed grammar it is `Ok`.
   */
  lemma BlankThenOk()
    ensures RespFrom(At.ParseResponse, Received(CRLF + At.OK_TAG), 0).r == Err(ParseErr)
    ensures RespFrom(At.ParseLineResponse, Received(CRLF + At.OK_TAG), 0).r == Ok(At.Ok)
  {
    BlankThenOkWritten();
    BlankThenOkLines();
  }

  /** The stream `<CR><LF><CR><LF>OK<CR><LF>` carries two blank lines, then `OK<CR><LF>`. */
  lemma BlankThenOkStream()
    ensures var rx := Received(CRLF + At.OK_TAG);
      |rx| == 8 && Carries(rx, 0, CRLF) && Carries(rx, 2, CRLF) && Carries(rx, 4, At.OK_LINE)
    ensures IsLine(CRLF) && IsLine(At.OK_LINE) && Utf8.Valid(CRLF) && Utf8.Valid(At.OK_LINE)
  {
    var bytes := CRLF + At.OK_TAG;
    assert bytes == [13, 10, 13, 10, 79, 75, 13, 10];
    Utf8.AsciiIsValid(CRLF);
    Utf8.AsciiIsValid(At.OK_LINE);
  }

  lemma BlankThenOkWritten()
    ensures RespFrom(At.ParseResponse, Received(CRLF + At.OK_TAG), 0).r == Err(ParseErr)
  {
    var rx := Received(CRLF + At.OK_TAG);
    BlankThenOkStream();
    assert RespFrom(At.ParseResponse, rx, 0) == RespFrom(At.ParseResponse, rx, 2) by {
      At.LineClassification(CRLF);
      RespOfLine(At.ParseResponse, rx, 0, CRLF);
    }
    assert RespFrom(At.ParseResponse, rx, 2) == RespFrom(At.ParseResponse, rx, 4) by {
      At.LineClassification(CRLF);
      RespOfLine(At.ParseResponse, rx, 2, CRLF);
    }
    assert RespFrom(At.ParseResponse, rx, 4).r == Err(ParseErr) by {
      At.LineClassification(At.OK_LINE);
      RespOfLine(At.ParseResponse, rx, 4, At.OK_LINE);
    }
  }

  lemma BlankThenOkLines()
    ensures RespFrom(At.ParseLineResponse, Received(CRLF + At.OK_TAG), 0).r == Ok(At.Ok)
  {
    var rx := Received(CRLF + At.OK_TAG);
    BlankThenOkStream();
    assert RespFrom(At.ParseLineResponse, rx, 0) == RespFrom(At.ParseLineResponse, rx, 2) by {
      At.LineBlank();
      RespOfLine(At.ParseLineResponse, rx, 0, CRLF);
    }
    assert RespFrom(At.ParseLineResponse, rx, 2) == RespFrom(At.ParseLineResponse, rx, 4) by {
      At.LineBlank();
      RespOfLine(At.ParseLineResponse, rx, 2, CRLF);
    }
    assert RespFrom(At.ParseLineResponse, rx, 4).r == Ok(At.Ok) by {
      At.LineOk();
      assert At.Record(At.Ok)[2..] == At.OK_LINE;
      RespOfLine(At.ParseLineResponse, rx, 4, At.OK_LINE);
    }
  }
}
