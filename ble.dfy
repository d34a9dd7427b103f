/** Advertisements as the scanner delivers them, and the small helpers both scanners share. */
module Ble {

  datatype Option<T> = None | Some(value: T)

  /** A radio address in the scanner's textual form, e.g. "4c:65:a8:dc:01:02". */
  type Addr = string

  /** AD type "Service Data - 16-bit UUID" (section 1.11 of Part A of the Bluetooth Core Specification Supplement). */
  const ServiceData16: int := 0x16

  /** AD type "Complete Local Name" (section 1.2 of Part A of the Bluetooth Core Specification Supplement). */
  const CompleteLocalName: int := 9

  /** One (AD type, description, value text) triple of an advertisement's scan data. */
  datatype AdEntry = AdEntry(adType: int, desc: string, value: string)

  /** One scanned device: its address, its signal strength and its scan data. */
  datatype Advertisement = Advertisement(addr: Addr, rssi: int, scanData: seq<AdEntry>)

  /** Substring test, as `pat in s` on two strings. */
  predicate HasSubstring(s: string, pat: string)
    decreases |s|
  {
    |pat| <= |s| && (s[..|pat|] == pat || HasSubstring(s[1..], pat))
  }
}
