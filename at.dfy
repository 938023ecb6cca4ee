/**
 * The AT response grammar of the EC01F module (`mod at` in src/ec01f/mod.rs).
 * Four tag parsers, tried in a fixed order, classify the start of a line;
 * whatever follows the matched tag is handed back as the remainder.
 */
module At {
  import opened Text

  /** One classified response. */
  datatype Response = Empty | Ok | Error | CmeError(code: int)

  /**
   * The outcome of a parser: the classified response with the unconsumed
   * remainder of the input, or a parse failure.
   */
  datatype ParseResult = Parsed(rest: seq<byte>, resp: Response) | Failed

  /** `i32::MAX`, the largest code `str::parse::<i32>` accepts. */
  const I32_MAX: int := 0x7FFF_FFFF

  /** `"\r\nOK\r\n"`. */
  const OK_TAG: seq<byte> := [13, 10, 79, 75, 13, 10]
  /** `"\r\nERROR\r\n"`. */
  const ERROR_TAG: seq<byte> := [13, 10, 69, 82, 82, 79, 82, 13, 10]
  /** `"\r\n+CME ERROR: "`. */
  const CME_TAG: seq<byte> := [13, 10, 43, 67, 77, 69, 32, 69, 82, 82, 79, 82, 58, 32]

  /** `empty`: the tag `<CR><LF>`. */
  function ParseEmpty(input: seq<byte>): (r: ParseResult)
    ensures r.Parsed? <==> CRLF <= input
    ensures r.Parsed? ==> r.resp == Empty && input == CRLF + r.rest
  {
    if CRLF <= input then Parsed(input[|CRLF|..], Empty) else Failed
  }

  /** `ok`: the tag `<CR><LF>OK<CR><LF>`. */
  function ParseOk(input: seq<byte>): (r: ParseResult)
    ensures r.Parsed? <==> OK_TAG <= input
    ensures r.Parsed? ==> r.resp == Ok && input == OK_TAG + r.rest
  {
    if OK_TAG <= input then Parsed(input[|OK_TAG|..], Ok) else Failed
  }

  /** `error`: the tag `<CR><LF>ERROR<CR><LF>`. */
  function ParseError(input: seq<byte>): (r: ParseResult)
    ensures r.Parsed? <==> ERROR_TAG <= input
    ensures r.Parsed? ==> r.resp == Error && input == ERROR_TAG + r.rest
  {
    if ERROR_TAG <= input then Parsed(input[|ERROR_TAG|..], Error) else Failed
  }

  /** `digit1`: the length of the longest run of ASCII digits `s` starts with. */
  function DigitRun(s: seq<byte>): (n: nat)
    ensures n <= |s| && AllDigits(s[..n])
    ensures n < |s| ==> !IsDigit(s[n])
  {
    if |s| > 0 && IsDigit(s[0]) then
      var n := 1 + DigitRun(s[1..]);
      assert forall i :: 1 <= i < n ==> s[..n][i] == s[1..][..n - 1][i - 1];
      n
    else 0
  }

  /**
   * `<digits><CR><LF>` after the `+CME ERROR: ` tag: a non-empty digit run whose
   * value fits an `i32`, then the terminator.
   */
  function ParseCode(after: seq<byte>): (r: ParseResult)
    ensures |after| == 0 || !IsDigit(after[0]) ==> r == Failed
    ensures r.Parsed? ==> r.resp.CmeError? && 0 <= r.resp.code <= I32_MAX
    ensures r.Parsed? ==> |r.rest| + 3 <= |after| && after[|after| - |r.rest|..] == r.rest
  {
    var n := DigitRun(after);
    if n == 0 then Failed
    else if Decimal(after[..n]) > I32_MAX then Failed
    else if CRLF <= after[n..] then Parsed(after[n + |CRLF|..], CmeError(Decimal(after[..n])))
    else Failed
  }

  /** `cme_error`: `<CR><LF>+CME ERROR: <digits><CR><LF>`. */
  function ParseCmeError(input: seq<byte>): (r: ParseResult)
    ensures r.Parsed? ==> CME_TAG <= input && r.resp.CmeError? && 0 <= r.resp.code <= I32_MAX
    ensures r.Parsed? ==> |r.rest| + |CME_TAG| + 3 <= |input| && input[|input| - |r.rest|..] == r.rest
  {
    if CME_TAG <= input then ParseCode(input[|CME_TAG|..]) else Failed
  }

  /** `response`: `alt((ok, error, cme_error, empty))`, the first parser that succeeds wins. */
  function ParseResponse(input: seq<byte>): (r: ParseResult)
    ensures r.Parsed? ==> |r.rest| + 2 <= |input| && input[|input| - |r.rest|..] == r.rest
  {
    var ok := ParseOk(input);
    if ok.Parsed? then ok
    else
      var error := ParseError(input);
      if error.Parsed? then error
      else
        var cme := ParseCmeError(input);
        if cme.Parsed? then cme
        else ParseEmpty(input)
  }

  /**
   * The tags' lengths; each begins with `<CR><LF>`, so `<LF>` is its second
   * byte; and their third bytes (`O`, `E`, `+`) differ.
   */
  lemma TagFacts()
    ensures |OK_TAG| == 6 && |ERROR_TAG| == 9 && |CME_TAG| == 14
    ensures CRLF <= OK_TAG && CRLF <= ERROR_TAG && CRLF <= CME_TAG
    ensures OK_TAG[1] == LF && ERROR_TAG[1] == LF && CME_TAG[1] == LF
    ensures OK_TAG[2] == 79 && ERROR_TAG[2] == 69 && CME_TAG[2] == 43
  {
  }

  // ---------------------------------------------------------------- properties

  /** Input starting `<CR><LF>OK<CR><LF>` is `Ok`, whatever follows. */
  lemma OkFirst(input: seq<byte>)
    requires OK_TAG <= input
    ensures ParseResponse(input) == Parsed(input[6..], Ok)
  {
    TagFacts();
  }

  /** Input starting `<CR><LF>ERROR<CR><LF>` is `Error`, whatever follows. */
  lemma ErrorSecond(input: seq<byte>)
    requires ERROR_TAG <= input
    ensures ParseResponse(input) == Parsed(input[9..], Error)
  {
    TagFacts();
    assert input[2] == 69;
  }

  /** The digit run of digits followed by a non-digit is exactly those digits. */
  lemma {:induction false} DigitRunOf(ds: seq<byte>, tail: seq<byte>)
    requires AllDigits(ds)
    requires |tail| > 0 && !IsDigit(tail[0])
    ensures DigitRun(ds + tail) == |ds|
  {
    if |ds| > 0 {
      assert (ds + tail)[1..] == ds[1..] + tail;
      DigitRunOf(ds[1..], tail);
    } else {
      assert ds + tail == tail;
    }
  }

  /** A digit run within `i32`, then `<CR><LF>`, parses as that code. */
  lemma ParseCodeOf(ds: seq<byte>, rest: seq<byte>)
    requires |ds| > 0 && AllDigits(ds) && Decimal(ds) <= I32_MAX
    ensures ParseCode(ds + CRLF + rest) == Parsed(rest, CmeError(Decimal(ds)))
  {
    var t := CRLF + rest;
    var after := ds + t;
    assert ds + CRLF + rest == after;
    DigitRunOf(ds, t);
    assert after[..|ds|] == ds;
    assert after[|ds|..] == t;
    assert t[2..] == rest;
    assert ParseCode(after) == Parsed(t[2..], CmeError(Decimal(ds)));
  }

  /** What `ParseCode` accepts has the form digits, `<CR><LF>`, remainder. */
  lemma ParseCodeForm(after: seq<byte>)
    requires ParseCode(after).Parsed?
    ensures var n := DigitRun(after);
      n > 0 && after == after[..n] + CRLF + ParseCode(after).rest
  {
    var n := DigitRun(after);
    assert after == after[..n] + after[n..];
    assert after[n..] == CRLF + after[n + 2..];
  }

  /** Only `cme_error` produces a `CmeError`, so its form is that parser's. */
  lemma CmeErrorForm(input: seq<byte>)
    requires ParseResponse(input).Parsed? && ParseResponse(input).resp.CmeError?
    ensures var after := input[|CME_TAG|..]; var n := DigitRun(after);
      CME_TAG <= input && n > 0 &&
      input == CME_TAG + after[..n] + CRLF + ParseResponse(input).rest &&
      ParseResponse(input).resp.code == Decimal(after[..n]) <= I32_MAX
  {
    var p := ParseResponse(input);
    assert CME_TAG <= input && ParseCode(input[|CME_TAG|..]) == p by {
      assert ParseCmeError(input) == p;
    }
    var after := input[|CME_TAG|..];
    var n := DigitRun(after);
    ParseCodeForm(after);
    assert input == CME_TAG + after;
    RegroupAfterTag(CME_TAG, after[..n], CRLF, p.rest);
  }

  /** Input whose third byte is `+` matches neither the `ok` nor the `error` tag. */
  lemma NeitherOkNorError(input: seq<byte>)
    requires |input| > 2 && input[2] == 43
    ensures ParseOk(input) == Failed && ParseError(input) == Failed
  {
    TagFacts();
  }

  /** After the `+CME ERROR: ` tag, `cme_error` parses the code. */
  lemma CmeTagThenCode(after: seq<byte>)
    ensures ParseCmeError(CME_TAG + after) == ParseCode(after)
  {
    var input := CME_TAG + after;
    assert input[..|CME_TAG|] == CME_TAG;
    assert input[|CME_TAG|..] == after;
  }

  /** `alt` reaches `cme_error` once `ok` and `error` have failed, and keeps its success. */
  lemma ResponseOfCme(input: seq<byte>)
    requires ParseOk(input) == Failed && ParseError(input) == Failed && ParseCmeError(input).Parsed?
    ensures ParseResponse(input) == ParseCmeError(input)
  {
  }

  /** Input that starts with the `+CME ERROR: ` tag has `+` as its third byte. */
  lemma CmeTagThird(after: seq<byte>)
    ensures |CME_TAG + after| > 2 && (CME_TAG + after)[2] == 43
  {
  }

  /**
   * Regroups tag, digits, terminator and remainder so that the part after
   * the tag is one sequence, the argument that `ParseCode` receives.
   */
  lemma RegroupAfterTag(a: seq<byte>, b: seq<byte>, c: seq<byte>, d: seq<byte>)
    ensures a + b + c + d == a + (b + c + d)
  {
  }

  /** `+CME ERROR: `, a digit run within `i32` and `<CR><LF>` classify as that code. */
  lemma CmeErrorOf(ds: seq<byte>, rest: seq<byte>)
    requires |ds| > 0 && AllDigits(ds) && Decimal(ds) <= I32_MAX
    ensures ParseResponse(CME_TAG + ds + CRLF + rest) == Parsed(rest, CmeError(Decimal(ds)))
  {
    var after := ds + CRLF + rest;
    RegroupAfterTag(CME_TAG, ds, CRLF, rest);
    CmeTagThird(after);
    NeitherOkNorError(CME_TAG + after);
    CmeTagThenCode(after);
    ParseCodeOf(ds, rest);
    ResponseOfCme(CME_TAG + after);
  }

  /**
   * `CmeError(v)` is produced exactly for `+CME ERROR: ` followed by a
   * non-empty digit run of value `v` within `i32`, then `<CR><LF>`; the
   * remainder is what follows that terminator.
   */
  lemma CmeErrorIff(input: seq<byte>, rest: seq<byte>, v: int)
    ensures ParseResponse(input) == Parsed(rest, CmeError(v)) <==>
      exists ds :: |ds| > 0 && AllDigits(ds) && Decimal(ds) == v && v <= I32_MAX &&
        input == CME_TAG + ds + CRLF + rest
  {
    if ParseResponse(input) == Parsed(rest, CmeError(v)) {
      CmeErrorForm(input);
      var ds := input[|CME_TAG|..][..DigitRun(input[|CME_TAG|..])];
      assert |ds| > 0 && AllDigits(ds) && Decimal(ds) == v && v <= I32_MAX &&
        input == CME_TAG + ds + CRLF + rest;
    }
    if exists ds :: |ds| > 0 && AllDigits(ds) && Decimal(ds) == v && v <= I32_MAX &&
        input == CME_TAG + ds + CRLF + rest {
      var ds :| |ds| > 0 && AllDigits(ds) && Decimal(ds) == v && v <= I32_MAX &&
        input == CME_TAG + ds + CRLF + rest;
      CmeErrorOf(ds, rest);
    }
  }

  /** Every classified code is a non-negative `i32`. */
  lemma CmeErrorRange(input: seq<byte>)
    requires ParseResponse(input).Parsed? && ParseResponse(input).resp.CmeError?
    ensures 0 <= ParseResponse(input).resp.code <= I32_MAX
  {
  }

  /**
   * A `+CME ERROR: ` line whose digit run is missing, overflows `i32` or is
   * not followed by `<CR><LF>` falls through to `Empty`.
   */
  lemma CmeMalformedIsEmpty(input: seq<byte>)
    requires CME_TAG <= input
    requires var after := input[14..]; var n := DigitRun(after);
      n == 0 || Decimal(after[..n]) > I32_MAX || !(CRLF <= after[n..])
    ensures ParseResponse(input) == Parsed(input[2..], Empty)
  {
    TagFacts();
    assert input[2] == 43;
  }

  /** `<CR><LF>+CME ERROR: 42<CR><LF>` is `CmeError(42)`. */
  lemma CmeError42()
    ensures ParseResponse(Ascii("\r\n+CME ERROR: 42\r\n")) == Parsed([], CmeError(42))
  {
    var input := Ascii("\r\n+CME ERROR: 42\r\n");
    var ds: seq<byte> := [52, 50];
    assert Decimal(ds) == 42 by {
      assert ds[..1] == [52];
      assert [52][..0] == [];
    }
    assert input == CME_TAG + ds + CRLF + [];
    CmeErrorIff(input, [], 42);
  }

  /** `<CR><LF>+CME ERROR: <CR><LF>`, with no digits, is not a `CmeError`. */
  lemma CmeErrorWithoutDigits()
    ensures ParseResponse(Ascii("\r\n+CME ERROR: \r\n")).resp == Empty
  {
    var input := Ascii("\r\n+CME ERROR: \r\n");
    assert CME_TAG <= input;
    assert input[14] == CR;
    CmeMalformedIsEmpty(input);
  }

  /**
   * Input is classified exactly when it starts with `<CR><LF>`; anything else
   * is a parse failure.
   */
  lemma ClassifiedIff(input: seq<byte>)
    ensures ParseResponse(input).Parsed? <==> CRLF <= input
  {
    TagFacts();
    if OK_TAG <= input || ERROR_TAG <= input || CME_TAG <= input {
      assert input[..2] == CRLF;
    }
  }

  // ------------------------------------------------------- records as sent

  /** A response is well-formed when its code, if any, is a non-negative `i32`. */
  predicate WellFormed(resp: Response) {
    resp.CmeError? ==> 0 <= resp.code <= I32_MAX
  }

  /** The bytes the module sends for a response. */
  function Record(resp: Response): (r: seq<byte>)
    requires WellFormed(resp)
    ensures CRLF <= r
  {
    match resp
    case Empty => CRLF
    case Ok => OK_TAG
    case Error => ERROR_TAG
    case CmeError(v) => CME_TAG + DecimalText(v) + CRLF
  }

  /**
   * Partner of the grammar: a record as the module sends it, followed by
   * anything, classifies back to that response with the remainder intact
   * (for `Empty`, when nothing follows).
   */
  lemma RecordRoundTrip(resp: Response, rest: seq<byte>)
    requires WellFormed(resp)
    requires resp == Empty ==> rest == []
    ensures ParseResponse(Record(resp) + rest) == Parsed(rest, resp)
  {
    TagFacts();
    var input := Record(resp) + rest;
    match resp
    case Empty =>
      assert input == CRLF;
    case Ok =>
      assert input[6..] == rest;
    case Error =>
      assert input[2] == 69;
      assert input[9..] == rest;
    case CmeError(v) =>
      DecimalRoundTrip(v);
      CmeErrorIff(input, rest, v);
  }

  /**
   * The remainder is what follows the matched tag: the input is the consumed
   * part followed by the remainder, and for `Ok`, `Error` and `Empty` the
   * consumed part is exactly that response's record.
   */
  lemma RemainderFollowsTag(input: seq<byte>)
    requires ParseResponse(input).Parsed?
    ensures var p := ParseResponse(input);
      var consumed := input[..|input| - |p.rest|];
      |consumed| >= 2 && input == consumed + p.rest &&
      (!p.resp.CmeError? ==> WellFormed(p.resp) && consumed == Record(p.resp))
  {
    TagFacts();
    var p := ParseResponse(input);
    var consumed := input[..|input| - |p.rest|];
    if p.resp.CmeError? {
      CmeErrorForm(input);
    } else if p.resp == Ok {
      assert consumed == input[..6];
    } else if p.resp == Error {
      assert consumed == input[..9];
    } else {
      assert consumed == input[..2];
    }
  }

  /**
   * A classified line consisting of `<CR><LF>` alone is `Empty`, and any
   * longer input whose only `<LF>` is its last byte is not classified at
   * all, since every tag has an `<LF>` as its second byte.
   */
  lemma LineClassification(line: seq<byte>)
    requires IsLine(line)
    ensures ParseResponse(line) == if line == CRLF then Parsed([], Empty) else Failed
  {
    TagFacts();
    if CRLF <= line {
      assert line[1] == LF;
      assert |line| == 2;
      assert line == CRLF;
    } else {
      ClassifiedIff(line);
    }
  }

  // ------------------------------------------------- line-framed grammar

  /** `"OK\r\n"`. */
  const OK_LINE: seq<byte> := [79, 75, 13, 10]
  /** `"ERROR\r\n"`. */
  const ERROR_LINE: seq<byte> := [69, 82, 82, 79, 82, 13, 10]
  /** `"+CME ERROR: "`. */
  const CME_LINE: seq<byte> := [43, 67, 77, 69, 32, 69, 82, 82, 79, 82, 58, 32]

  /**
   * The byte displays above are the ASCII texts of the source's tags, and
   * each line-framed tag is its keyword tag without the leading `<CR><LF>`.
   */
  lemma TagText()
    ensures OK_TAG == Ascii("\r\nOK\r\n") && ERROR_TAG == Ascii("\r\nERROR\r\n")
    ensures CME_TAG == Ascii("\r\n+CME ERROR: ")
    ensures OK_LINE == Ascii("OK\r\n") && ERROR_LINE == Ascii("ERROR\r\n")
    ensures CME_LINE == Ascii("+CME ERROR: ")
    ensures OK_TAG == CRLF + OK_LINE && ERROR_TAG == CRLF + ERROR_LINE && CME_TAG == CRLF + CME_LINE
  {
  }

  /**
   * The grammar matched to `<LF>`-terminated lines: the module's record
   * `<CR><LF>OK<CR><LF>` arrives as the line `<CR><LF>` followed by the line
   * `OK<CR><LF>`, so each keyword tag here lacks the leading `<CR><LF>`.
   * Priority order and code parsing are those of `ParseResponse`.
   */
  function ParseLineResponse(line: seq<byte>): (r: ParseResult) {
    if OK_LINE <= line then Parsed(line[|OK_LINE|..], Ok)
    else if ERROR_LINE <= line then Parsed(line[|ERROR_LINE|..], Error)
    else if CME_LINE <= line && ParseCode(line[|CME_LINE|..]).Parsed? then ParseCode(line[|CME_LINE|..])
    else ParseEmpty(line)
  }

  /**
   * Each record, read as the lines it consists of, classifies under the
   * line-framed grammar: its first line `<CR><LF>` as `Empty` and its second
   * line as the record's response.
   */
  lemma LineRecordRoundTrip(resp: Response)
    requires WellFormed(resp) && resp != Empty
    ensures ParseLineResponse(CRLF) == Parsed([], Empty)
    ensures ParseLineResponse(Record(resp)[2..]) == Parsed([], resp)
  {
    LineBlank();
    match resp
    case Ok => LineOk();
    case Error => LineError();
    case CmeError(v) => LineCme(v);
  }

  lemma LineBlank()
    ensures ParseLineResponse(CRLF) == Parsed([], Empty)
  {
    assert CRLF[0] != OK_LINE[0] && CRLF[0] != ERROR_LINE[0] && CRLF[0] != CME_LINE[0];
  }

  lemma LineOk()
    ensures ParseLineResponse(Record(Ok)[2..]) == Parsed([], Ok)
  {
    assert Record(Ok)[2..] == OK_LINE;
  }

  lemma LineError()
    ensures ParseLineResponse(Record(Error)[2..]) == Parsed([], Error)
  {
    var line := Record(Error)[2..];
    assert line == ERROR_LINE;
    assert line[0] != OK_LINE[0];
  }

  lemma LineCme(v: int)
    requires WellFormed(CmeError(v))
    ensures ParseLineResponse(Record(CmeError(v))[2..]) == Parsed([], CmeError(v))
  {
    var ds := DecimalText(v);
    var after := ds + CRLF;
    assert after == ds + CRLF + [];
    DecimalRoundTrip(v);
    ParseCodeOf(ds, []);
    LineCmeThenCode(after);
    CmeRecordLine(v);
  }

  /** Without its leading `<CR><LF>`, a `+CME ERROR` record is the line-framed tag, the code and `<CR><LF>`. */
  lemma CmeRecordLine(v: int)
    requires WellFormed(CmeError(v))
    ensures Record(CmeError(v))[2..] == CME_LINE + (DecimalText(v) + CRLF)
  {
    assert CME_TAG == CRLF + CME_LINE by { TagText(); }
    DropFirstPart(CRLF, CME_LINE, DecimalText(v), CRLF);
  }

  /** Dropping the first of four concatenated parts leaves the other three. */
  lemma DropFirstPart(a: seq<byte>, b: seq<byte>, c: seq<byte>, d: seq<byte>)
    ensures ((a + b) + c + d)[|a|..] == b + (c + d)
  {
  }

  /** After the line-framed `+CME ERROR: ` tag, the code is parsed. */
  lemma LineCmeThenCode(after: seq<byte>)
    requires ParseCode(after).Parsed?
    ensures ParseLineResponse(CME_LINE + after) == ParseCode(after)
  {
    var line := CME_LINE + after;
    assert line[0] == 43;
    assert line[..|CME_LINE|] == CME_LINE;
    assert line[|CME_LINE|..] == after;
  }
}
