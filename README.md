# EC01F AT-command driver, modelled in Dafny

This project models the driver for the EC01F NB-IoT radio module in
`src/ec01f/`. The driver talks to the module over a UART, one AT command
per line, and classifies the lines the module sends back. The model has
three layers, each mirroring the source:

- **Response grammar** (`mod at`, module `At`). A line is classified as
  `Empty`, `Ok`, `Error` or `CmeError(code)` by four tag parsers tried in
  order: `ok`, `error`, `cme_error`, `empty`. Whatever follows the matched
  tag is returned as a remainder. Any input that does not start with
  `<CR><LF>` fails to parse.
- **Line reader and command driver** (`EC01F`, modules `Reader` and
  `Ec01f`). `read_line` pushes bytes into a fixed-capacity buffer up to and
  including the first `<LF>`. `read_resp` checks the line is UTF-8,
  classifies it, and skips `Empty` lines. `read_ok` waits for an `Ok`.
  `write_cmd` writes the command and one `<LF>`. `new` sends `ATE0` and
  waits with `read_ok`.
- **CoAP session guard** (`CoAPClient`, module `Coap`). Creating a client
  sends `AT+COAPCREATE=5683`. Dropping it sends `AT+COAPDEL` and then waits
  with `read_ok`, discarding any error.

The UART is modelled in two halves:

- **Receive side**: a finite sequence of read outcomes (`RxEvent`: a byte or
  a fault) plus the position of the next read.
- **Transmit side**: an append-only trace of the bytes written.

Every loop consumes input, so every loop terminates. `Reader` states what
the receive side computes as functions of the stream. The methods of
`Ec01f.Device` run the source's loops over a `LineBuffer` (the
`heapless::Vec<u8, 1024>`), and each method is proved to compute its
`Reader` function.

The main consequence proved is `Reader.RespNeverDecisive`:

- A line ends at its first `<LF>` (mod.rs:63).
- Every tag of the grammar has an `<LF>` as its second byte.
- So the only line the grammar classifies is `<CR><LF>` itself. It is
  `Empty` and is skipped. Every other well-formed line is a `ParseErr`.
- Hence `read_resp` never returns `Ok`, `Error` or `CmeError`. `read_ok` and
  `EC01F::new` never succeed on any input (`Reader.AwaitOkNeverSucceeds`,
  `Ec01f.Device.New`).

In these places the code does not do what an AT driver is expected to
do; the model follows the code:

- An input that starts with `<CR><LF>` and matches no other tag falls back
  to `Empty`, whatever follows. It does not have to be exactly `<CR><LF>`.
- `<CR><LF>+CME ERROR: <CR><LF>` (no digits) is classified `Empty`, not
  rejected. A digit run that overflows `i32` is also `Empty`.
- A transmit fault panics through `unwrap` in `write_cmd`. `TxError` is
  never produced.
- The session teardown waits with `read_ok`, which loops until an `Ok`. It
  does not make a single read.
- A record `<CR><LF>OK<CR><LF>` does not yield `Ok`: see Findings.

## Model

| member | source | states |
|---|---|---|
| `Text.DecimalText` | src/ec01f/coap.rs:10 | The `{}` numeral of a number is a non-empty run of digits with no leading zero. |
| `Text.Decimal` | src/ec01f/mod.rs:163 | The value `v.parse()` gives a digit run, most significant digit first; `k` digits give a value below `10^k`. |
| `Text.DecimalTextShort` | src/ec01f/coap.rs:10 | The numeral of any `i32` value has at most ten digits. |
| `Text.DecimalRoundTrip` | src/ec01f/mod.rs:163 | Parsing a formatted numeral as a decimal gives the number back. |
| `Utf8.CharLength` | src/ec01f/mod.rs:105 | The length of the UTF-8 character a byte string starts with (RFC 3629 section 4), 0 if none: 1 exactly for an ASCII byte, never more than 4 or the bytes available; a character starts with an ASCII byte or C2..F4 and continues with bytes 80..BF only. |
| `Utf8.Valid` | src/ec01f/mod.rs:105 | The byte strings `from_utf8` accepts: sequences of such characters. A non-empty one starts with an ASCII byte or a lead byte C2..F4, and ends with an ASCII byte or a continuation byte, never inside a character. |
| `Utf8.AsciiIsValid` | src/ec01f/mod.rs:105 | ASCII bytes are well-formed UTF-8 (RFC 3629 section 4), so `from_utf8` accepts every ASCII line. |
| `Utf8.MalformedExamples` | src/ec01f/mod.rs:105 | A lone continuation byte, an overlong NUL and an encoded surrogate are rejected; a three-byte character is accepted. |
| `At.ParseEmpty` | src/ec01f/mod.rs:147-149 | `empty` succeeds exactly when the input starts with `<CR><LF>`, and then the input is that tag followed by the remainder, classified `Empty`. |
| `At.ParseOk` | src/ec01f/mod.rs:151-153 | `ok` succeeds exactly when the input starts with `<CR><LF>OK<CR><LF>`, and then the input is that tag followed by the remainder, classified `Ok`. |
| `At.ParseError` | src/ec01f/mod.rs:155-157 | `error` succeeds exactly when the input starts with `<CR><LF>ERROR<CR><LF>`, and then the input is that tag followed by the remainder, classified `Error`. |
| `At.ParseCode` | src/ec01f/mod.rs:163-164 | `map_res(digit1, parse)` then `<CR><LF>`: fails unless a digit comes first; on success the code is in 0..`i32::MAX`, and the remainder is a suffix at least three bytes (a digit and the terminator) shorter. |
| `At.ParseCmeError` | src/ec01f/mod.rs:159-168 | `cme_error` succeeds only after the `<CR><LF>+CME ERROR: ` tag, yields a code in 0..`i32::MAX`, and leaves a suffix of the input without the tag, a digit and the terminator. |
| `At.ParseResponse` | src/ec01f/mod.rs:170-172 | `response` consumes at least two bytes on success and hands back a suffix of the input as remainder. |
| `At.DigitRun` | src/ec01f/mod.rs:163 | `digit1` takes the longest run of ASCII digits: all of it digits, and the next byte (if any) not a digit. |
| `At.TagText` | src/ec01f/mod.rs:148-164 | The tag byte strings are the ASCII texts `"\r\nOK\r\n"`, `"\r\nERROR\r\n"` and `"\r\n+CME ERROR: "`; each line-framed tag is its keyword tag without the leading `<CR><LF>`. |
| `At.OkFirst` | src/ec01f/mod.rs:151-172 | Input starting `<CR><LF>OK<CR><LF>` is `Ok` with the rest of the input as remainder, whatever follows. |
| `At.ErrorSecond` | src/ec01f/mod.rs:155-172 | Input starting `<CR><LF>ERROR<CR><LF>` is `Error`, with the remainder after that tag. |
| `At.CmeErrorIff` | src/ec01f/mod.rs:159-168 | `CmeError(v)` with remainder `rest` holds exactly when the input is `+CME ERROR: ` tag, a non-empty digit run of value `v` at most `i32::MAX`, `<CR><LF>`, then `rest` (both directions). |
| `At.CmeErrorRange` | src/ec01f/mod.rs:163 | A classified code is between 0 and 2147483647. |
| `At.CmeMalformedIsEmpty` | src/ec01f/mod.rs:159-171 | After the `+CME ERROR: ` tag, a missing, overflowing or unterminated digit run makes `cme_error` fail and the input falls through to `Empty`. |
| `At.CmeError42` | src/ec01f/mod.rs:159-168 | `<CR><LF>+CME ERROR: 42<CR><LF>` is `CmeError(42)` with nothing left over. |
| `At.CmeErrorWithoutDigits` | src/ec01f/mod.rs:159-171 | `<CR><LF>+CME ERROR: <CR><LF>` is classified `Empty`, not `CmeError`. |
| `At.ClassifiedIff` | src/ec01f/mod.rs:147-171 | Input is classified exactly when it starts with `<CR><LF>`; everything else is a parse failure. |
| `At.RecordRoundTrip` | src/ec01f/mod.rs:147-172 | A non-`Empty` response's record followed by anything, or the bare `<CR><LF>` record of `Empty` with nothing after it, classifies back to that response with the remainder intact. |
| `At.RemainderFollowsTag` | src/ec01f/mod.rs:170-172 | The input is the consumed tag followed by the remainder; for `Ok`, `Error` and `Empty` the consumed part is exactly that response's record. |
| `At.LineClassification` | src/ec01f/mod.rs:147-172 | On a line whose only `<LF>` is its last byte, the grammar gives `Empty` if the line is `<CR><LF>`, and fails otherwise. |
| `At.LineRecordRoundTrip` | src/ec01f/mod.rs:147-172 | The line-framed grammar classifies `<CR><LF>` as `Empty`, and the second line of each record as that record's response. |
| `Reader.ReadByteAt` | src/ec01f/mod.rs:50-52 | One read consumes one event: a byte gives it, a fault gives `RxError`; an exhausted stream gives `RxError` and consumes nothing. |
| `Reader.ReadLineFrom` | src/ec01f/mod.rs:54-67 | `read_line` only appends to the buffer, consumes at least one event when it succeeds, and fails only with `BufferFull` or `RxError`. |
| `Reader.ReadLineSuccess` | src/ec01f/mod.rs:54-67 | On success the buffer is the old contents followed by the bytes read. Those bytes are the events consumed, with `<LF>` last and nowhere earlier, and the buffer is within capacity. |
| `Reader.ReadLineFull` | src/ec01f/mod.rs:60-62 | `BufferFull` leaves a full buffer: the old contents plus the bytes read before the refused one, none of them `<LF>`. The refused byte was consumed. |
| `Reader.ReadLineRxError` | src/ec01f/mod.rs:59 | `RxError` leaves the old contents plus the bytes read, none of them `<LF>`. The stream ended, or its last consumed event was a fault. |
| `Reader.ReadLineOf` | src/ec01f/mod.rs:54-67 | A stream carrying a line that fits the buffer is read as exactly that line (converse of `ReadLineSuccess`). |
| `Reader.ReadLineOverflow` | src/ec01f/mod.rs:60-62 | More bytes than the buffer has room for, with no `<LF>` among those that fit, give `BufferFull`. |
| `Reader.RespFrom` | src/ec01f/mod.rs:100-115 | `read_resp` never reports `TxError` or `Timeout`, and consumes input whenever it succeeds. |
| `Reader.RespOfLine` | src/ec01f/mod.rs:103-108 | On a well-formed UTF-8 line, `read_resp` skips `Empty`, returns any other response, and turns a grammar failure into `ParseErr`. |
| `Reader.RespNeverEmpty` | src/ec01f/mod.rs:106-108 | `read_resp` never returns `Empty`, whatever the grammar. |
| `Reader.RespNeverDecisive` | src/ec01f/mod.rs:100-115 | With the driver's grammar, `read_resp` always fails: it never returns `Ok`, `Error` or `CmeError`. |
| `Reader.LongLineIsBufferFull` | src/ec01f/mod.rs:101-103 | 1025 bytes with no `<LF>` among the first 1024 make `read_resp` fail with `BufferFull`. |
| `Reader.InvalidLineRejected` | src/ec01f/mod.rs:103-105 | Any line within the buffer's capacity that is not UTF-8 makes `read_resp` fail with `InvalidUTF8` right after that line, whatever the grammar. |
| `Reader.OverlongNulRejected` | src/ec01f/mod.rs:105 | For instance the line `C0 80 <LF>` (an overlong NUL) gives `InvalidUTF8` after three bytes. |
| `Reader.AwaitOkFrom` | src/ec01f/mod.rs:133-136 | `read_ok` never reports `TxError` or `Timeout`. |
| `Reader.AwaitOkEndsWithLastResp` | src/ec01f/mod.rs:133-136 | `read_ok` reaches, through a chain of `read_resp` calls each succeeding with a response other than `Ok` (`SkipsTo`), a point where one more `read_resp` ends it: with `Ok(())` if that call gives `Ok`, with that call's error otherwise, stopping where that call stopped. |
| `Reader.DiscardsUntilOk` | src/ec01f/mod.rs:133-136 | With the line-framed grammar, `ERROR`, `+CME ERROR: 7` and `OK` records in a row make `read_ok` return `Ok(())` after consuming all three. |
| `Reader.SkipsThenOk` | src/ec01f/mod.rs:133-136 | For any grammar: after a chain of successful responses other than `Ok` and then an `Ok` that ends at `e`, `read_ok` returns `Ok(())` at `e`. |
| `Reader.SkipOne` | src/ec01f/mod.rs:134 | For any grammar: a successful response other than `Ok` that ends where a chain of such responses begins extends that chain. |
| `Reader.ErrorsThenOk` | src/ec01f/mod.rs:133-136 | With the line-framed grammar, wherever an `ERROR` record, a `+CME ERROR` record with any code and an `OK` record follow one another in the stream, `read_ok` discards the first two responses and returns `Ok(())` right after the `OK` record. |
| `Reader.OkRecordEndsWait` | src/ec01f/mod.rs:134-135 | With the line-framed grammar, an `OK` record ends `read_ok` with `Ok(())` right after it. |
| `Reader.AwaitOkNeverSucceeds` | src/ec01f/mod.rs:133-136 | With the driver's grammar, `read_ok` never returns `Ok(())`. |
| `Reader.RecordRejected` | src/ec01f/mod.rs:103-108 | As written, a record `<CR><LF>OK<CR><LF>`, `<CR><LF>ERROR<CR><LF>` or `<CR><LF>+CME ERROR: n<CR><LF>` makes `read_resp` fail with `ParseErr` after consuming the record. |
| `Reader.RecordAccepted` | src/ec01f/mod.rs:147-172 | With the line-framed grammar, each such record makes `read_resp` return that response after consuming the record. |
| `Reader.RecordAcceptedAt` | src/ec01f/mod.rs:100-115 | The same for a record that starts anywhere in the stream. |
| `Reader.BlankThenOk` | src/ec01f/mod.rs:100-115 | `<CR><LF>` followed by `<CR><LF>OK<CR><LF>` gives `ParseErr` as written, and `Ok` with the line-framed grammar. |
| `Ec01f.LineBuffer.constructor` | src/ec01f/mod.rs:101 | A new buffer of the given capacity is empty. |
| `Ec01f.LineBuffer.Push` | src/ec01f/mod.rs:60 | `push` appends the byte exactly when the buffer is not full; otherwise the contents are unchanged. |
| `Ec01f.LineBuffer.Clear` | src/ec01f/mod.rs:107 | `clear` empties the buffer. |
| `Ec01f.Device.constructor` | src/ec01f/mod.rs:44 | A new device has read nothing and written nothing, and is not lent out. |
| `Ec01f.Device.New` | src/ec01f/mod.rs:43-48 | `new` writes exactly `ATE0<LF>`, then its result and input position are those of `read_ok`; it never succeeds. |
| `Ec01f.Device.ReadByte` | src/ec01f/mod.rs:50-52 | The read computes `Reader.ReadByteAt` on the device's stream and position. |
| `Ec01f.Device.ReadLine` | src/ec01f/mod.rs:54-67 | The loop computes `Reader.ReadLineFrom`: same result, new position and buffer contents. |
| `Ec01f.Device.WriteStr` | src/ec01f/mod.rs:79-84 | The bytes are appended to the transmit trace, in order. |
| `Ec01f.Device.WriteCmd` | src/ec01f/mod.rs:94-98 | Appends the command bytes and exactly one `<LF>` to the trace, and always returns `Ok(())`. |
| `Ec01f.Device.ReadResp` | src/ec01f/mod.rs:100-115 | The loop computes `Reader.RespFrom` with the driver's grammar. |
| `Ec01f.Device.ReadOk` | src/ec01f/mod.rs:133-136 | The loop computes `Reader.AwaitOkFrom` with the driver's grammar. |
| `Coap.CreateCommandText` | src/ec01f/coap.rs:10 | The formatted create command is the text `AT+COAPCREATE=5683`. |
| `Coap.CoapClient.constructor` | src/ec01f/coap.rs:9-12 | Appends exactly `AT+COAPCREATE=5683<LF>` and reads nothing. It ignores the write's result, always yields a client on the device, and takes the device's borrow. |
| `Coap.CoapClient.Drop` | src/ec01f/coap.rs:15-21 | Appends exactly `AT+COAPDEL<LF>`, then consumes input as `read_ok` does. It returns nothing, so no failure escapes, and it releases the borrow. |
| `Coap.CreateCoap` | src/ec01f/mod.rs:69-71 | Lends the device to a fresh client; only the create command is sent. |
| `Coap.CoapLifetime` | src/ec01f/coap.rs:4-21 | Over a client's lifetime the device's traffic is exactly the create command, then the delete command and the `read_ok` wait. Afterwards the device is free again. |

## Left out

- Blocking (`nb::block!` and `WouldBlock`) is not modelled. Each read is a completed event. An exhausted receive stream reads as `RxError`; a real UART would block instead.
- The error values carried by `TxError(TX::Error)` and `RxError(RX::Error)` are dropped. Only the kinds remain.
- Transmit faults are not modelled: the model's UART never fails a write. In the source such a fault panics in `write_cmd` through `unwrap`. So `Ec01f.Device.WriteStr` returns no `fmt::Result`: in the model it could only be success.
- `fmt::Arguments` is reduced to the bytes the command formats to. The one placeholder used, the port in `AT+COAPCREATE={}`, is formatted by `Text.DecimalText`.
- `from_utf8` is replaced by the well-formedness predicate of RFC 3629 section 4, the set of byte strings it accepts.
- The nom combinators are written out as functions over bytes. A failure carries no detail.
- The `sprintln!` log on a parse error, the `Debug` impl of `Error`, and the unused `Timeout` variant are not modelled beyond declaring `Timeout`.
- The `nb::Result` wrapper around the result of `new` is not modelled. `Ec01f.Device.New` returns the plain result, and also the device so that its transmit trace stays visible.
- The `at::Device` trait and the generic parameter `D` of `CoAPClient` are not modelled. The client works on `Ec01f.Device` only.
- The borrow checker's guarantee is stated as a precondition. `lentTo` is a ghost field, and every operation of `Ec01f.Device` (`ReadByte`, `ReadLine`, `WriteStr`, `WriteCmd`, `ReadResp`, `ReadOk`, and `Coap.CreateCoap`) requires `lentTo == null`, so none can be called while the flag is set. The model relies on callers not clearing `lentTo` themselves (only `Coap.CoapClient.Drop` does); Dafny cannot forbid a method that may modify the device from doing so, or a caller from keeping a reference during the borrow.
- Rust runs `drop` automatically at the end of the borrow. Here `Coap.CoapClient.Drop` is called explicitly, as `Coap.CoapLifetime` shows.
- `create_coap` is a method of `EC01F` in the source. Here it is `Coap.CreateCoap`, because module `Ec01f` cannot depend on module `Coap`.
- The display driver (`src/epd2in66b/`), board start-up (`src/main.rs`) and panic handler (`src/panic_blinky/`) are not part of this model.

## Findings

| source | as written | input that shows it | evidently intended | confidence | as-written member | corrected member |
|---|---|---|---|---|---|---|
| src/ec01f/mod.rs:151-166 | The `ok`, `error` and `cme_error` tags begin with `<CR><LF>`, but `read_line` (mod.rs:63) ends each line at its first `<LF>`. The record `<CR><LF>OK<CR><LF>` therefore arrives as the line `<CR><LF>`, which is skipped as `Empty`, and then the line `OK<CR><LF>`, which does not parse. | receive bytes `<CR><LF>OK<CR><LF>` | `read_resp` returns `Ok`, so `read_ok`, `EC01F::new` and the session teardown can complete | not executed; follows from the proved lemmas | `Reader.RecordRejected` | `Reader.RecordAccepted` |

The corrected member uses `At.ParseLineResponse`. This is the same grammar
with the leading `<CR><LF>` taken off each keyword tag, matching
`<LF>`-terminated lines. It is proved with the same `read_resp` loop
specification (`Reader.RespFrom`, which takes the grammar as a parameter).
Under the corrected grammar, `read_ok` also does what the driver evidently
intends: it discards `ERROR` and `+CME ERROR` responses and stops right after
the `OK` (`Reader.ErrorsThenOk`, `Reader.DiscardsUntilOk`).
The driver's methods keep the grammar as written, because the model
describes the code that exists.
