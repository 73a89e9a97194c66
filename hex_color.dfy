/**
 * The server's colour record and its `#rrggbb` notation (server/images.go, `Color.ToHex` and
 * `HexToColor`), the hexadecimal colour notation of section 5.2 of CSS Color Module Level 4.
 * Strings are sequences of characters, each taken as one byte: Go's `len` and slicing count
 * bytes, so the model agrees with Go on ASCII input.
 */
module ColorHex {
  import opened Wrappers

  /** `Color{R, G, B}`: Go `int` channels. */
  datatype Color = Color(r: int, g: int, b: int)

  /** An 8-bit channel value, as a `uint8` holds. */
  type Byte = x: int | 0 <= x < 256

  predicate IsRgb8(c: Color)
  {
    0 <= c.r < 256 && 0 <= c.g < 256 && 0 <= c.b < 256
  }

  predicate IsLowerHexDigit(ch: char)
  {
    '0' <= ch <= '9' || 'a' <= ch <= 'f'
  }

  /** The lower-case digit that `%x` prints for `d`. */
  function HexDigit(d: int): (ch: char)
    requires 0 <= d < 16
    ensures IsLowerHexDigit(ch)
  {
    "0123456789abcdef"[d]
  }

  /** `%x` of a non-negative number: its base-16 digits, without leading zeros. */
  function HexDigits(n: nat): (s: string)
    ensures 1 <= |s|
    ensures forall k :: 0 <= k < |s| ==> IsLowerHexDigit(s[k])
    ensures n < 16 <==> |s| == 1
    decreases n
  {
    if n < 16 then [HexDigit(n)] else HexDigits(n / 16) + [HexDigit(n % 16)]
  }

  /**
   * Go's `%02x` of an `int`: zero-padded to two characters, the sign counting towards
   * the width, so a negative value is `-` followed by the digits of its magnitude.
   */
  function Fmt02x(n: int): (s: string)
    ensures 2 <= |s|
  {
    if n < 0 then "-" + HexDigits(-n)
    else
      var digits := HexDigits(n);
      if |digits| < 2 then "0" + digits else digits
  }

  /** `Color.ToHex`: `fmt.Sprintf("#%02x%02x%02x", c.R, c.G, c.B)`. */
  function ToHex(c: Color): string
  {
    "#" + Fmt02x(c.r) + Fmt02x(c.g) + Fmt02x(c.b)
  }

  /** The value of a hexadecimal digit of either case, as Go's integer scanner accepts it. */
  function HexValue(ch: char): (v: Option<int>)
    ensures v.Some? ==> 0 <= v.value < 16
  {
    if '0' <= ch <= '9' then Some(ch as int - '0' as int)
    else if 'a' <= ch <= 'f' then Some(ch as int - 'a' as int + 10)
    else if 'A' <= ch <= 'F' then Some(ch as int - 'A' as int + 10)
    else None
  }

  /**
   * One `%02x` conversion into a `uint8` starting at `pos`: at most two hexadecimal digits,
   * at least one. Gives the value and the position after the digits, or `None` when the
   * conversion fails.
   */
  function ScanHexByte(s: string, pos: nat): (r: Option<(Byte, nat)>)
    requires pos <= |s|
    ensures r.Some? ==> pos < r.value.1 <= pos + 2 && r.value.1 <= |s|
  {
    if pos < |s| && HexValue(s[pos]).Some? then
      var high := HexValue(s[pos]).value;
      if pos + 1 < |s| && HexValue(s[pos + 1]).Some? then
        Some((16 * high + HexValue(s[pos + 1]).value, pos + 2))
      else Some((high, pos + 1))
    else None
  }

  /**
   * `fmt.Sscanf(hex, "%02x%02x%02x", &r, &g, &b)`: the conversions run in turn from where the
   * previous one stopped, the first failing one ends the scan, and a variable not reached
   * keeps its zero value.
   */
  function ScanRgb(s: string): (c: Color)
    ensures IsRgb8(c)
  {
    match ScanHexByte(s, 0)
    case None => Color(0, 0, 0)
    case Some((r, p1)) =>
      match ScanHexByte(s, p1)
      case None => Color(r, 0, 0)
      case Some((g, p2)) =>
        match ScanHexByte(s, p2)
        case None => Color(r, g, 0)
        case Some((b, _)) => Color(r, g, b)
  }

  /**
   * `HexToColor`: drops the first character (which Go requires to exist) and scans the rest
   * only when it is exactly six characters long (six bytes in Go, the same on ASCII input).
   * The result always has 8-bit channels, and anything but six characters after the first
   * gives black.
   */
  function HexToColor(hex: string): (c: Color)
    requires 1 <= |hex|
    ensures IsRgb8(c)
    ensures |hex| != 7 ==> c == Color(0, 0, 0)
  {
    var rest := hex[1..];
    if |rest| == 6 then ScanRgb(rest) else Color(0, 0, 0)
  }

  lemma HexValueOfDigit(d: int)
    requires 0 <= d < 16
    ensures HexValue(HexDigit(d)) == Some(d)
  {
  }

  /** An 8-bit channel prints as exactly two lower-case digits, the high one first. */
  lemma Fmt02xOfByte(n: int)
    requires 0 <= n < 256
    ensures Fmt02x(n) == [HexDigit(n / 16), HexDigit(n % 16)]
  {
    if n >= 16 {
      assert HexDigits(n / 16) == [HexDigit(n / 16)];
    }
  }

  /** For 8-bit channels, `ToHex` is `#` and six lower-case hexadecimal digits. */
  lemma {:induction false} ToHexShape(c: Color)
    requires IsRgb8(c)
    ensures |ToHex(c)| == 7 && ToHex(c)[0] == '#'
    ensures forall k :: 1 <= k < 7 ==> IsLowerHexDigit(ToHex(c)[k])
  {
    Fmt02xOfByte(c.r);
    Fmt02xOfByte(c.g);
    Fmt02xOfByte(c.b);
  }

  /** Two digits scanned back give the byte they were printed from. */
  lemma {:induction false} ScanPrintedByte(s: string, pos: nat, n: int)
    requires 0 <= n < 256 && pos + 2 <= |s|
    requires s[pos] == HexDigit(n / 16) && s[pos + 1] == HexDigit(n % 16)
    ensures ScanHexByte(s, pos) == Some((n, pos + 2))
  {
    HexValueOfDigit(n / 16);
    HexValueOfDigit(n % 16);
  }

  /** Decoding the notation of an 8-bit colour gives the colour back. */
  lemma {:induction false} HexRoundTrip(c: Color)
    requires IsRgb8(c)
    ensures HexToColor(ToHex(c)) == c
  {
    Fmt02xOfByte(c.r);
    Fmt02xOfByte(c.g);
    Fmt02xOfByte(c.b);
    var rest := ToHex(c)[1..];
    assert rest == [HexDigit(c.r / 16), HexDigit(c.r % 16), HexDigit(c.g / 16), HexDigit(c.g % 16),
                    HexDigit(c.b / 16), HexDigit(c.b % 16)];
    ScanPrintedByte(rest, 0, c.r);
    ScanPrintedByte(rest, 2, c.g);
    ScanPrintedByte(rest, 4, c.b);
  }

  /** Upper-case digits decode too, and a non-digit stops the scan with the rest left at zero. */
  lemma HexToColorExamples()
    ensures HexToColor("#FF8000") == Color(255, 128, 0)
    ensures HexToColor("#12zz56") == Color(18, 0, 0)
    ensures HexToColor("#1z3456") == Color(1, 0, 0)
    ensures HexToColor("#fff") == Color(0, 0, 0)
  {
    assert HexValue('F') == Some(15) && HexValue('8') == Some(8) && HexValue('0') == Some(0);
    assert HexValue('1') == Some(1) && HexValue('2') == Some(2) && HexValue('z') == None;
  }
}
