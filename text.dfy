/** Octets, ASCII text and decimal numerals, as the driver sees them on the UART. */
module Text {

  /** One octet (Rust `u8`). */
  type byte = b: int | 0 <= b < 256

  const CR: byte := 13
  const LF: byte := 10

  /** The two-byte line terminator `<CR><LF>`. */
  const CRLF: seq<byte> := [CR, LF]

  predicate IsAscii(s: string) {
    forall i :: 0 <= i < |s| ==> s[i] as int < 128
  }

  predicate AllAscii(bs: seq<byte>) {
    forall i :: 0 <= i < |bs| ==> bs[i] < 128
  }

  /** The bytes of an ASCII string (`str::as_bytes` on ASCII text). */
  function Ascii(s: string): seq<byte>
    requires IsAscii(s)
  {
    seq(|s|, i requires 0 <= i < |s| => s[i] as int)
  }

  /** No `<LF>` among the bytes. */
  predicate NoLF(bs: seq<byte>) {
    forall k :: 0 <= k < |bs| ==> bs[k] != LF
  }

  /** One line as the driver frames it: an `<LF>` at the end and nowhere else. */
  predicate IsLine(bs: seq<byte>) {
    |bs| > 0 && bs[|bs| - 1] == LF && forall k :: 0 <= k < |bs| - 1 ==> bs[k] != LF
  }

  /** An ASCII decimal digit `0`..`9`. */
  predicate IsDigit(b: byte) {
    48 <= b <= 57
  }

  predicate AllDigits(ds: seq<byte>) {
    forall i :: 0 <= i < |ds| ==> IsDigit(ds[i])
  }

  function Pow10(k: nat): nat {
    if k == 0 then 1 else 10 * Pow10(k - 1)
  }

  /** The value of a run of decimal digits, most significant first: below `10^k` for `k` digits. */
  function Decimal(ds: seq<byte>): (v: nat)
    requires AllDigits(ds)
    ensures v < Pow10(|ds|)
  {
    if ds == [] then 0 else 10 * Decimal(ds[..|ds| - 1]) + (ds[|ds| - 1] - 48)
  }

  /** The decimal numeral of `n`, without sign or leading zeros (`{}` on an integer). */
  function DecimalText(n: nat): (r: seq<byte>)
    ensures |r| > 0 && AllDigits(r)
    ensures |r| > 1 ==> r[0] != 48
  {
    if n < 10 then [48 + n] else DecimalText(n / 10) + [48 + n % 10]
  }

  /** Reading back a formatted numeral gives the number. */
  lemma {:induction false} DecimalRoundTrip(n: nat)
    ensures Decimal(DecimalText(n)) == n
  {
    if n >= 10 {
      var r := DecimalText(n);
      assert r[..|r| - 1] == DecimalText(n / 10);
      DecimalRoundTrip(n / 10);
    }
  }

  /** A number below `10^k` has a numeral of at most `k` digits. */
  lemma {:induction false} DecimalTextLength(n: nat, k: nat)
    requires k >= 1 && n < Pow10(k)
    ensures |DecimalText(n)| <= k
  {
    if n >= 10 {
      DecimalTextLength(n / 10, k - 1);
    }
  }

  /** The numeral of an `i32` value (at most 2147483647) has at most ten digits. */
  lemma DecimalTextShort(n: nat)
    requires n <= 0x7FFF_FFFF
    ensures |DecimalText(n)| <= 10
  {
    assert Pow10(10) == 10_000_000_000;
    DecimalTextLength(n, 10);
  }

  /** Digits are ASCII. */
  lemma DigitsAreAscii(ds: seq<byte>)
    requires AllDigits(ds)
    ensures AllAscii(ds)
  {
  }
}
