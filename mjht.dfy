/**
 * The MJ_HT_V1 advertisement decoder. The thermometer broadcasts its readings as service data
 * (AD type 0x16); the scanner hands that field over as hex text, two lower-case digits per byte.
 * Byte 13 selects the format, and the readings, in raw tenths, follow from byte 16:
 *
 *   byte 13   reading                  bytes (little-endian)
 *   0x04      temperature              16, 17
 *   0x06      humidity                 16, 17
 *   0x0A      battery                  16
 *   0x0D      temperature, humidity    16, 17 and 18, 19
 *
 * DecodeAsWritten follows the handler's slicing, discriminator tests and base-16 parsing on
 * hex-digit text, including what happens when the text ends early; Decode is the decoder with a length check per format, which the registry uses;
 * DecodeBytes states the format table on bytes.
 */
module MjHt {
  import opened Ble

  type Byte = b: int | 0 <= b < 256

  /** The lower-case hex digit of n. */
  function HexDigit(n: int): char
    requires 0 <= n < 16
  {
    if n < 10 then ('0' as int + n) as char else ('a' as int + n - 10) as char
  }

  function HexByte(b: Byte): string {
    [HexDigit(b / 16), HexDigit(b % 16)]
  }

  /** The hex text of a byte string, as the scanner renders service data. */
  function Hex(p: seq<Byte>): (s: string)
    ensures |s| == 2 * |p|
  {
    seq(2 * |p|, i requires 0 <= i < 2 * |p| => HexByte(p[i / 2])[i % 2])
  }

  /** The value of one hex digit of either case. */
  function DigitValue(c: char): Option<nat> {
    if '0' <= c <= '9' then Some(c as int - '0' as int)
    else if 'a' <= c <= 'f' then Some(c as int - 'a' as int + 10)
    else if 'A' <= c <= 'F' then Some(c as int - 'A' as int + 10)
    else None
  }

  /** The value of a string of hex digits, most significant first; None at the first non-digit. */
  function DigitsValue(s: string): Option<nat> {
    if s == [] then Some(0)
    else
      match (DigitsValue(s[..|s| - 1]), DigitValue(s[|s| - 1]))
      case (Some(high), Some(low)) => Some(high * 16 + low)
      case _ => None
  }

  /**
   * Base-16 parsing of a text of hex digits: an empty text raises, modelled as None. A text with any
   * other character is also None here; the language's parser would accept surrounding whitespace, a
   * sign, a 0x prefix or underscores, which rendered service data never contains.
   */
  function ParseHex(s: string): Option<nat> {
    if s == [] then None else DigitsValue(s)
  }

  /** The slice s[lo:hi], with both bounds cut back to the length of s. */
  function Slice(s: string, lo: nat, hi: nat): (r: string)
    requires lo <= hi
    ensures |r| <= hi - lo
  {
    var a := if lo < |s| then lo else |s|;
    var b := if hi < |s| then hi else |s|;
    s[a..b]
  }

  /** The text of the little-endian 16-bit field at byte k: the digits of byte k + 1, then those of byte k. */
  function WordText(val: string, k: nat): string {
    Slice(val, 2 * k + 2, 2 * k + 4) + Slice(val, 2 * k, 2 * k + 2)
  }

  /** The text of the byte at k. */
  function OctetText(val: string, k: nat): string {
    Slice(val, 2 * k, 2 * k + 2)
  }

  /** Payload texts of at most this many characters are dropped as data loss. */
  const GuardChars := 28

  /** The little-endian 16-bit value at byte k. */
  function Le16(p: seq<Byte>, k: nat): nat
    requires k + 1 < |p|
  {
    p[k + 1] as int * 256 + p[k] as int
  }

  /** The readings of one device, in raw tenths. */
  datatype Sample = Sample(temp: int, hum: int, batt: int)

  const NoSample := Sample(0, 0, 0)

  /** The readings one payload carries; the others are left as they are. */
  datatype Delta = Delta(temp: Option<nat>, hum: Option<nat>, batt: Option<nat>)

  const Nothing := Delta(None, None, None)

  function Apply(s: Sample, d: Delta): Sample {
    Sample(
      if d.temp.Some? then d.temp.value else s.temp,
      if d.hum.Some? then d.hum.value else s.hum,
      if d.batt.Some? then d.batt.value else s.batt)
  }

  /** Applying d2 after d1 is applying d1 overridden by d2. */
  function Override(d1: Delta, d2: Delta): Delta {
    Delta(
      if d2.temp.Some? then d2.temp else d1.temp,
      if d2.hum.Some? then d2.hum else d1.hum,
      if d2.batt.Some? then d2.batt else d1.batt)
  }

  /** What decoding one payload yields: too short, an unknown format, or readings. */
  datatype Outcome = DataLoss | NoMatch | Update(delta: Delta)

  /** The handler's literal result: an outcome, or a ValueError raised after `applied` was already stored. */
  datatype Literal = Done(outcome: Outcome) | ValueError(applied: Delta)

  /**
   * The handler as written: a single guard on the text length, then the discriminator, then
   * base-16 parsing of whatever the field slices hold, which is empty or one byte when the
   * text ends inside a field.
   */
  function DecodeAsWritten(val: string): (r: Literal)
    ensures r == Done(DataLoss) <==> |val| <= GuardChars
    ensures r == Done(NoMatch) <==> |val| > GuardChars && NeededChars(val[26..28]) == 0
  {
    if |val| <= GuardChars then Done(DataLoss)
    else
      var sub := val[26..28];
      if sub == "04" then
        match ParseHex(WordText(val, 16))
        case None => ValueError(Nothing)
        case Some(t) => Done(Update(Delta(Some(t), None, None)))
      else if sub == "06" then
        match ParseHex(WordText(val, 16))
        case None => ValueError(Nothing)
        case Some(h) => Done(Update(Delta(None, Some(h), None)))
      else if sub == "0A" || sub == "0a" then
        match ParseHex(OctetText(val, 16))
        case None => ValueError(Nothing)
        case Some(b) => Done(Update(Delta(None, None, Some(b))))
      else if sub == "0D" || sub == "0d" then
        match ParseHex(WordText(val, 16))
        case None => ValueError(Nothing)
        case Some(t) =>
          match ParseHex(WordText(val, 18))
          case None => ValueError(Delta(Some(t), None, None))
          case Some(h) => Done(Update(Delta(Some(t), Some(h), None)))
      else Done(NoMatch)
  }

  /** The number of text characters each format needs: up to byte 17, 16 or 19. */
  function NeededChars(sub: string): nat {
    if sub == "04" || sub == "06" then 36
    else if sub == "0A" || sub == "0a" then 34
    else if sub == "0D" || sub == "0d" then 40
    else 0
  }

  /**
   * The decoder with a length check per format: a text too short for its format, or one whose
   * fields are not hex, is dropped as data loss, and nothing is stored.
   */
  function Decode(val: string): (r: Outcome)
    ensures |val| <= GuardChars ==> r == DataLoss
    ensures r == NoMatch <==> |val| > GuardChars && NeededChars(val[26..28]) == 0
    ensures r.Update? ==> |val| > GuardChars && |val| >= NeededChars(val[26..28]) > 0
  {
    if |val| <= GuardChars then DataLoss
    else
      var sub := val[26..28];
      if |val| < NeededChars(sub) then DataLoss
      else if sub == "04" || sub == "06" then
        match ParseHex(WordText(val, 16))
        case None => DataLoss
        case Some(v) => Update(if sub == "04" then Delta(Some(v), None, None) else Delta(None, Some(v), None))
      else if sub == "0A" || sub == "0a" then
        match ParseHex(OctetText(val, 16))
        case None => DataLoss
        case Some(b) => Update(Delta(None, None, Some(b)))
      else if sub == "0D" || sub == "0d" then
        match (ParseHex(WordText(val, 16)), ParseHex(WordText(val, 18)))
        case (Some(t), Some(h)) => Update(Delta(Some(t), Some(h), None))
        case _ => DataLoss
      else NoMatch
  }

  /** The format table on the payload bytes. */
  function DecodeBytes(p: seq<Byte>): Outcome {
    if |p| <= 14 then DataLoss
    else if p[13] == 0x04 then
      if |p| < 18 then DataLoss else Update(Delta(Some(Le16(p, 16)), None, None))
    else if p[13] == 0x06 then
      if |p| < 18 then DataLoss else Update(Delta(None, Some(Le16(p, 16)), None))
    else if p[13] == 0x0A then
      if |p| < 17 then DataLoss else Update(Delta(None, None, Some(p[16])))
    else if p[13] == 0x0D then
      if |p| < 20 then DataLoss else Update(Delta(Some(Le16(p, 16)), Some(Le16(p, 18)), None))
    else NoMatch
  }

  /** The effect of one service-data payload on a device's stored sample. */
  function Absorb(s: Sample, val: string): Sample {
    match Decode(val)
    case Update(d) => Apply(s, d)
    case _ => s
  }

  // ---------------------------------------------------------------------------------------------
  // Hex text facts

  lemma DigitOfHexDigit(n: int)
    requires 0 <= n < 16
    ensures DigitValue(HexDigit(n)) == Some(n)
    ensures HexDigit(n) != 'A' && HexDigit(n) != 'D'
  {
  }

  lemma HexByteInjective(a: Byte, b: Byte)
    requires HexByte(a) == HexByte(b)
    ensures a == b
  {
    DigitOfHexDigit(a / 16);
    DigitOfHexDigit(b / 16);
    DigitOfHexDigit(a % 16);
    DigitOfHexDigit(b % 16);
  }

  /** The discriminator texts: a rendered byte equals "04", "06", "0a", "0d" exactly for that value, and never "0A" or "0D". */
  lemma DiscriminatorText(b: Byte)
    ensures HexByte(b) == "04" <==> b == 0x04
    ensures HexByte(b) == "06" <==> b == 0x06
    ensures HexByte(b) == "0a" <==> b == 0x0A
    ensures HexByte(b) == "0d" <==> b == 0x0D
    ensures HexByte(b) != "0A" && HexByte(b) != "0D"
  {
    assert HexByte(0x04) == "04";
    assert HexByte(0x06) == "06";
    assert HexByte(0x0A) == "0a";
    assert HexByte(0x0D) == "0d";
    if HexByte(b) == "04" { HexByteInjective(b, 0x04); }
    if HexByte(b) == "06" { HexByteInjective(b, 0x06); }
    if HexByte(b) == "0a" { HexByteInjective(b, 0x0A); }
    if HexByte(b) == "0d" { HexByteInjective(b, 0x0D); }
    DigitOfHexDigit(b % 16);
  }

  /** Byte k of the payload sits at characters 2k and 2k + 1 of its text. */
  lemma HexAt(p: seq<Byte>, k: nat)
    requires k < |p|
    ensures Hex(p)[2 * k..2 * k + 2] == HexByte(p[k])
  {
    assert Hex(p)[2 * k] == HexByte(p[k])[0];
    assert Hex(p)[2 * k + 1] == HexByte(p[k])[1];
  }

  /** Slicing out byte k of a payload text gives its two digits, or nothing past the end. */
  lemma SliceHex(p: seq<Byte>, k: nat)
    ensures Slice(Hex(p), 2 * k, 2 * k + 2) == if k < |p| then HexByte(p[k]) else []
  {
    if k < |p| { HexAt(p, k); }
  }

  /** Appending the digits of a byte multiplies the value so far by 256 and adds the byte. */
  lemma DigitsAppendByte(u: string, b: Byte)
    ensures DigitsValue(u + HexByte(b)) ==
      match DigitsValue(u)
      case Some(x) => Some(x * 256 + b)
      case None => None
  {
    var hi, lo := HexDigit(b / 16), HexDigit(b % 16);
    DigitOfHexDigit(b / 16);
    DigitOfHexDigit(b % 16);
    assert (u + HexByte(b))[..|u| + 1] == u + [hi];
    assert (u + [hi])[..|u|] == u;
    match DigitsValue(u)
    case Some(x) =>
      assert DigitsValue(u + [hi]) == Some(x * 16 + b / 16);
      assert (x * 16 + b / 16) * 16 + b % 16 == x * 256 + b;
    case None =>
  }

  lemma ParseOneByte(b: Byte)
    ensures ParseHex(HexByte(b)) == Some(b)
  {
    DigitsAppendByte([], b);
    assert [] + HexByte(b) == HexByte(b);
  }

  /** The text of byte a followed by that of byte b parses as a * 256 + b. */
  lemma ParseTwoBytes(a: Byte, b: Byte, w: string)
    requires w == HexByte(a) + HexByte(b)
    ensures ParseHex(w) == Some(a as int * 256 + b as int)
  {
    ParseOneByte(a);
    DigitsAppendByte(HexByte(a), b);
  }

  /** The 16-bit field text at byte k of a payload text with at least k + 2 bytes: the digits of byte k + 1, then of byte k. */
  lemma WordTextHex(p: seq<Byte>, k: nat)
    requires k + 1 < |p|
    ensures WordText(Hex(p), k) == HexByte(p[k + 1]) + HexByte(p[k])
  {
    SliceHex(p, k);
    SliceHex(p, k + 1);
  }

  /** The 16-bit field at byte k of a payload text with at least k + 2 bytes parses to its little-endian value. */
  lemma ParseWordAt(p: seq<Byte>, k: nat)
    requires k + 1 < |p|
    ensures ParseHex(WordText(Hex(p), k)) == Some(Le16(p, k))
  {
    WordTextHex(p, k);
    ParseTwoBytes(p[k + 1], p[k], WordText(Hex(p), k));
  }

  // ---------------------------------------------------------------------------------------------
  // The decoder and the format table

  /** Decoding the text of a payload follows the format table on its bytes, in every case. */
  lemma DecodeHex(p: seq<Byte>)
    ensures Decode(Hex(p)) == DecodeBytes(p)
  {
    var val := Hex(p);
    if |p| > 14 {
      HexAt(p, 13);
      assert val[26..28] == HexByte(p[13]);
      DiscriminatorText(p[13]);
      if |p| >= 18 { ParseWordAt(p, 16); }
      if |p| >= 20 { ParseWordAt(p, 18); }
      if |p| >= 17 { SliceHex(p, 16); ParseOneByte(p[16]); }
    }
  }

  /**
   * What one payload does to a device's sample, format by format: the stated reading is replaced
   * and the others kept; a short payload or an unknown format changes nothing.
   */
  lemma AbsorbPayload(s: Sample, p: seq<Byte>)
    ensures var r := Absorb(s, Hex(p));
      && (|p| <= 14 ==> r == s)
      && (|p| > 14 && p[13] !in {0x04, 0x06, 0x0A, 0x0D} ==> r == s)
      && (|p| > 14 && p[13] == 0x04 ==> r == if |p| >= 18 then s.(temp := Le16(p, 16)) else s)
      && (|p| > 14 && p[13] == 0x06 ==> r == if |p| >= 18 then s.(hum := Le16(p, 16)) else s)
      && (|p| > 14 && p[13] == 0x0A ==> r == if |p| >= 17 then s.(batt := p[16]) else s)
      && (|p| > 14 && p[13] == 0x0D ==> r == if |p| >= 20 then s.(temp := Le16(p, 16), hum := Le16(p, 18)) else s)
  {
    DecodeHex(p);
  }

  /** Where the corrected decoder accepts a text or reports an unknown format, the handler as written does the same. */
  lemma AsWrittenAgrees(val: string)
    ensures Decode(val).Update? ==> DecodeAsWritten(val) == Done(Decode(val))
    ensures Decode(val) == NoMatch <==> DecodeAsWritten(val) == Done(NoMatch)
    ensures |val| <= GuardChars ==> Decode(val) == DataLoss && DecodeAsWritten(val) == Done(DataLoss)
  {
  }

  // ---------------------------------------------------------------------------------------------
  // Where the handler as written departs from the format table

  /** A 15- or 16-byte payload of a known format passes the guard, and parsing its empty field raises. */
  lemma AsWrittenRaisesOnShortPayload(p: seq<Byte>)
    requires 15 <= |p| <= 16 && p[13] in {0x04, 0x06, 0x0A, 0x0D}
    ensures DecodeAsWritten(Hex(p)) == ValueError(Nothing)
    ensures DecodeBytes(p) == DataLoss
  {
    HexAt(p, 13);
    DiscriminatorText(p[13]);
    SliceHex(p, 16);
    SliceHex(p, 17);
  }

  /** A 17-byte payload of format 0x04 or 0x06 stores byte 16 alone as the 16-bit reading. */
  lemma AsWrittenReadsOneByte(p: seq<Byte>)
    requires |p| == 17 && (p[13] == 0x04 || p[13] == 0x06)
    ensures DecodeAsWritten(Hex(p)) ==
      Done(Update(if p[13] == 0x04 then Delta(Some(p[16]), None, None) else Delta(None, Some(p[16]), None)))
    ensures DecodeBytes(p) == DataLoss
  {
    var val := Hex(p);
    HexAt(p, 13);
    assert val[26..28] == HexByte(p[13]);
    DiscriminatorText(p[13]);
    SliceHex(p, 16);
    SliceHex(p, 17);
    assert WordText(val, 16) == HexByte(p[16]);
    ParseOneByte(p[16]);
    if p[13] == 0x04 {
      assert val[26..28] == "04";
    } else {
      assert val[26..28] == "06";
    }
  }

  /** An 18-byte payload of format 0x0D stores the temperature, then raises on the missing humidity field. */
  lemma AsWrittenHalfAppliesCombined(p: seq<Byte>)
    requires |p| == 18 && p[13] == 0x0D
    ensures DecodeAsWritten(Hex(p)) == ValueError(Delta(Some(Le16(p, 16)), None, None))
    ensures DecodeBytes(p) == DataLoss
  {
    HexAt(p, 13);
    DiscriminatorText(p[13]);
    ParseWordAt(p, 16);
    SliceHex(p, 18);
    SliceHex(p, 19);
  }

  /** The smallest instance: 17 bytes, format 0x04, bytes 16 and 17 meant as 0x00EB (23.5 degrees), byte 17 missing. */
  lemma ShortTemperatureExample()
    ensures var p: seq<Byte> := seq(13, _ => 0) + [0x04, 0, 0, 0xEB];
      DecodeAsWritten(Hex(p)) == Done(Update(Delta(Some(0xEB), None, None))) && DecodeBytes(p) == DataLoss
  {
    var p: seq<Byte> := seq(13, _ => 0) + [0x04, 0, 0, 0xEB];
    AsWrittenReadsOneByte(p);
  }
}
