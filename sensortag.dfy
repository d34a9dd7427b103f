/**
 * The CC2650 SensorTag poller: a scanner thread that registers tags by their advertised name,
 * reads their sensors and refreshes their telemetry credentials from the store, and a publisher
 * thread that walks the same records, creating a telemetry client per record or sending through it.
 *
 * Records are objects shared by the scanner's own list and the list both threads see. Row is the
 * value of one record; the pure functions over rows below are what the methods are proved against.
 */
module SensorTag {
  import opened Ble
  import opened Telemetry

  /** The complete local name a CC2650 SensorTag advertises. */
  const SensorTagName := "CC2650 SensorTag"

  /** The value of one record: address, signal strength, the five readings, credentials and client. */
  datatype Row = Row(addr: Addr, rssi: int, readings: Readings, channelId: Field, writeKey: Field, client: Link)

  /** The record a newly found tag gets: zero readings, both credentials 0, no client. */
  function NewRow(ad: Advertisement): Row {
    Row(ad.addr, ad.rssi, NoReadings, Unset, Unset, NoClient)
  }

  /** A record holds a text among its field values: as its address, or as a credential once the store gave one. */
  predicate Holds(r: Row, v: string) {
    r.addr == v || r.channelId == Text(v) || r.writeKey == Text(v)
  }

  predicate Registered(rows: seq<Row>, v: string) {
    exists i :: 0 <= i < |rows| && Holds(rows[i], v)
  }

  predicate Distinct(rows: seq<Row>) {
    forall i, j :: 0 <= i < j < |rows| ==> rows[i].addr != rows[j].addr
  }

  /** A scan-data entry naming a SensorTag. */
  predicate Named(e: AdEntry) {
    e.adType == CompleteLocalName && e.value == SensorTagName
  }

  predicate HasName(ad: Advertisement) {
    exists j :: 0 <= j < |ad.scanData| && Named(ad.scanData[j])
  }

  /** Decimal text of an integer, as the store keeps an integer field. */
  function Decimal(n: int): (s: string)
    ensures |s| > 0 && (n < 0 <==> s[0] == '-')
    ensures forall k :: (if n < 0 then 1 else 0) <= k < |s| ==> '0' <= s[k] <= '9'
  {
    if n < 0 then "-" + Digits(-n) else Digits(n)
  }

  function Digits(n: nat): (s: string)
    ensures |s| > 0 && forall k :: 0 <= k < |s| ==> '0' <= s[k] <= '9'
  {
    var d := ['0' + (n % 10) as char];
    if n < 10 then d else Digits(n / 10) + d
  }

  /** The integer a decimal text denotes: a leading '-' negates the digits that follow. */
  function DecimalValue(s: string): int {
    if |s| > 0 && s[0] == '-' then -(DigitsNat(s[1..]) as int) else DigitsNat(s)
  }

  function DigitsNat(s: string): nat {
    if s == [] then 0
    else
      var c := s[|s| - 1];
      DigitsNat(s[..|s| - 1]) * 10 + (if '0' <= c <= '9' then c as int - '0' as int else 0)
  }

  lemma {:induction false} DigitsRoundTrip(n: nat)
    ensures DigitsNat(Digits(n)) == n
    decreases n
  {
    if n >= 10 {
      DigitsRoundTrip(n / 10);
      var s := Digits(n);
      assert s[..|s| - 1] == Digits(n / 10);
    }
  }

  /** The text written for an integer denotes that integer, so distinct signal strengths are written as distinct texts. */
  lemma DecimalRoundTrip(n: int)
    ensures DecimalValue(Decimal(n)) == n
  {
    if n < 0 {
      DigitsRoundTrip(-n);
      assert Decimal(n)[1..] == Digits(-n);
    } else {
      DigitsRoundTrip(n);
    }
  }

  /** The scanner's records and the store. */
  datatype Table = Table(rows: seq<Row>, store: Store)

  /** One scan-data entry of one advertisement: a SensorTag whose address no record holds gets a record, and its rssi goes to the store. */
  function ScanEntry(t: Table, ad: Advertisement, e: AdEntry): (r: Table)
    ensures |t.rows| <= |r.rows| <= |t.rows| + 1 && r.rows[..|t.rows|] == t.rows
    ensures Registered(r.rows, ad.addr) <==> Registered(t.rows, ad.addr) || Named(e)
  {
    if Named(e) && !Registered(t.rows, ad.addr) then
      var rows := t.rows + [NewRow(ad)];
      assert Holds(rows[|t.rows|], ad.addr);
      Table(rows, HSet(t.store, ad.addr, "rssi", Decimal(ad.rssi)))
    else t
  }

  /** The entries of one advertisement, in order. */
  function ScanAd(t: Table, ad: Advertisement, es: seq<AdEntry>): (r: Table)
    ensures |t.rows| <= |r.rows|
  {
    if es == [] then t else ScanEntry(ScanAd(t, ad, es[..|es| - 1]), ad, es[|es| - 1])
  }

  /** One scan: every advertisement in order, each over all its scan data. */
  function ScanAll(t: Table, ads: seq<Advertisement>): (r: Table)
    ensures |t.rows| <= |r.rows|
  {
    if ads == [] then t else ScanAd(ScanAll(t, ads[..|ads| - 1]), ads[|ads| - 1], ads[|ads| - 1].scanData)
  }

  /** Rows that extend others keep every text the others hold. */
  lemma RegisteredExtends(rows: seq<Row>, rows': seq<Row>, v: string)
    requires |rows| <= |rows'| && rows'[..|rows|] == rows && Registered(rows, v)
    ensures Registered(rows', v)
  {
    var i :| 0 <= i < |rows| && Holds(rows[i], v);
    assert rows'[i] == rows[i];
  }

  /**
   * Scanning one advertisement keeps the existing records, adds at most one, and only a record for
   * this advertisement when some entry names a SensorTag; afterwards its address is held if some
   * entry names one; addresses stay distinct.
   */
  lemma {:induction false} ScanAdFacts(t: Table, ad: Advertisement, es: seq<AdEntry>)
    ensures var t' := ScanAd(t, ad, es);
      && |t.rows| <= |t'.rows| <= |t.rows| + 1 && t'.rows[..|t.rows|] == t.rows
      && (|t'.rows| > |t.rows| ==> t'.rows[|t.rows|] == NewRow(ad) && exists j :: 0 <= j < |es| && Named(es[j]))
      && ((exists j :: 0 <= j < |es| && Named(es[j])) ==> Registered(t'.rows, ad.addr))
      && (Distinct(t.rows) ==> Distinct(t'.rows))
    decreases |es|
  {
    if es != [] {
      var init, e := es[..|es| - 1], es[|es| - 1];
      ScanAdFacts(t, ad, init);
      var t1 := ScanAd(t, ad, init);
      var t' := ScanEntry(t1, ad, e);
      assert ScanAd(t, ad, es) == t';
      if |t1.rows| > |t.rows| {
        var j :| 0 <= j < |init| && Named(init[j]);
        assert Named(es[j]);
        assert Holds(t1.rows[|t.rows|], ad.addr);
      }
      if Named(e) && !Registered(t1.rows, ad.addr) {
        assert t'.rows[..|t1.rows|] == t1.rows;
        assert Holds(t'.rows[|t1.rows|], ad.addr);
        assert t'.rows[..|t.rows|] == t1.rows[..|t.rows|];
        if Distinct(t.rows) {
          forall i | 0 <= i < |t1.rows| ensures t'.rows[i].addr != ad.addr {
            assert !Holds(t1.rows[i], ad.addr);
          }
        }
      }
      if exists j :: 0 <= j < |es| && Named(es[j]) {
        if !Named(e) {
          var j :| 0 <= j < |es| && Named(es[j]);
          assert init[j] == es[j];
        }
      }
    }
  }

  /** A scan keeps the existing records and keeps addresses distinct. */
  lemma {:induction false} ScanAllKeeps(t: Table, ads: seq<Advertisement>)
    ensures var t' := ScanAll(t, ads);
      && |t.rows| <= |t'.rows| && t'.rows[..|t.rows|] == t.rows
      && (Distinct(t.rows) ==> Distinct(t'.rows))
    decreases |ads|
  {
    if ads != [] {
      var init, ad := ads[..|ads| - 1], ads[|ads| - 1];
      ScanAllKeeps(t, init);
      var t1 := ScanAll(t, init);
      ScanAdFacts(t1, ad, ad.scanData);
      var t' := ScanAll(t, ads);
      assert t'.rows[..|t.rows|] == t1.rows[..|t.rows|];
    }
  }

  /** Every record a scan adds is the new record of some advertisement that names a SensorTag. */
  lemma {:induction false} ScanAllSound(t: Table, ads: seq<Advertisement>, i: int)
    requires |t.rows| <= i < |ScanAll(t, ads).rows|
    ensures exists k :: 0 <= k < |ads| && HasName(ads[k]) && ScanAll(t, ads).rows[i] == NewRow(ads[k])
    decreases |ads|
  {
    var init, ad := ads[..|ads| - 1], ads[|ads| - 1];
    var t1 := ScanAll(t, init);
    ScanAdFacts(t1, ad, ad.scanData);
    ScanAllKeeps(t, init);
    if i < |t1.rows| {
      ScanAllSound(t, init, i);
      var k :| 0 <= k < |init| && HasName(init[k]) && t1.rows[i] == NewRow(init[k]);
      assert ads[k] == init[k];
      assert ScanAll(t, ads).rows[..|t1.rows|][i] == t1.rows[i];
    } else {
      assert HasName(ads[|ads| - 1]);
    }
  }

  /** Every advertisement that names a SensorTag ends up held by some record. */
  lemma {:induction false} ScanAllComplete(t: Table, ads: seq<Advertisement>, k: int)
    requires 0 <= k < |ads| && HasName(ads[k])
    ensures Registered(ScanAll(t, ads).rows, ads[k].addr)
    decreases |ads|
  {
    var init, ad := ads[..|ads| - 1], ads[|ads| - 1];
    var t1 := ScanAll(t, init);
    ScanAdFacts(t1, ad, ad.scanData);
    if k < |init| {
      assert init[k] == ads[k];
      ScanAllComplete(t, init, k);
      RegisteredExtends(t1.rows, ScanAll(t, ads).rows, ads[k].addr);
    }
  }

  /** What one tag read gives: all five values, or a disconnect part-way. */
  datatype ReadOutcome = Reading(temp: int, hum: int, pressure: int, light: int, battery: int) | Disconnected

  /** The readings a read leaves: d1 temperature, d2 humidity, d3 pressure, d4 battery, d5 light; all 0 after a disconnect. */
  function ReadingsAfter(o: ReadOutcome): Readings {
    match o
    case Reading(temp, hum, pressure, light, battery) => Readings(temp, hum, pressure, battery, light)
    case Disconnected => NoReadings
  }

  /** Every record's readings after one read pass; nothing else of a record changes. */
  function AfterReadPass(rows: seq<Row>, radio: Addr -> ReadOutcome): (rows': seq<Row>)
    ensures |rows'| == |rows|
    ensures forall i :: 0 <= i < |rows| ==> rows'[i] == rows[i].(readings := ReadingsAfter(radio(rows[i].addr)))
  {
    seq(|rows|, i requires 0 <= i < |rows| => rows[i].(readings := ReadingsAfter(radio(rows[i].addr))))
  }

  /** A record whose read was cut off holds five zero readings, whatever it held before. */
  lemma DisconnectZeroes(rows: seq<Row>, radio: Addr -> ReadOutcome, i: int)
    requires 0 <= i < |rows| && radio(rows[i].addr) == Disconnected
    ensures AfterReadPass(rows, radio)[i].readings == Readings(0, 0, 0, 0, 0)
  {
  }

  /** Every record's credentials after one refresh from the store; nothing else of a record changes. */
  function Refreshed(rows: seq<Row>, store: Store): (rows': seq<Row>)
    ensures |rows'| == |rows|
    ensures forall i :: 0 <= i < |rows| ==>
      rows'[i] == rows[i].(channelId := Lookup(store, rows[i].addr).channelId, writeKey := Lookup(store, rows[i].addr).writeKey)
  {
    seq(|rows|, i requires 0 <= i < |rows| =>
      rows[i].(channelId := Lookup(store, rows[i].addr).channelId, writeKey := Lookup(store, rows[i].addr).writeKey))
  }

  function CredentialsOf(r: Row): Credentials {
    Credentials(r.channelId, r.writeKey)
  }

  /** After a refresh every record carries exactly the credentials stored for it, each 0 where the store has none. */
  lemma RefreshedCredentials(rows: seq<Row>, store: Store, i: int)
    requires 0 <= i < |rows|
    ensures CredentialsOf(Refreshed(rows, store)[i]) == Lookup(store, rows[i].addr)
    ensures Refreshed(rows, store)[i].channelId == Unset <==> "channelId" !in HGetAll(store, rows[i].addr)
    ensures Refreshed(rows, store)[i].writeKey == Unset <==> "write_key" !in HGetAll(store, rows[i].addr)
  {
  }

  /** Refreshing twice from the same store is refreshing once. */
  lemma RefreshedTwice(rows: seq<Row>, store: Store)
    ensures Refreshed(Refreshed(rows, store), store) == Refreshed(rows, store)
  {
  }

  /** One publisher pass over the records: each record's client after the pass, and what the pass did for it. */
  function Published(rows: seq<Row>): (rows': seq<Row>)
    ensures |rows'| == |rows|
    ensures forall i :: 0 <= i < |rows| ==> rows'[i] == rows[i].(client := Cycle(rows[i].client, CredentialsOf(rows[i])).0)
  {
    seq(|rows|, i requires 0 <= i < |rows| => rows[i].(client := Cycle(rows[i].client, CredentialsOf(rows[i])).0))
  }

  function PassActions(rows: seq<Row>): (acts: seq<Action>)
    ensures |acts| == |rows|
    ensures forall i :: 0 <= i < |rows| ==> acts[i] == Cycle(rows[i].client, CredentialsOf(rows[i])).1
  {
    seq(|rows|, i requires 0 <= i < |rows| => Cycle(rows[i].client, CredentialsOf(rows[i])).1)
  }

  /**
   * In one pass a record with a client is sent, a record without one gets a client exactly when
   * not both credentials are 0, and one that got a client in this pass is not sent in it.
   */
  lemma PassAction(rows: seq<Row>, i: int)
    requires 0 <= i < |rows|
    ensures PassActions(rows)[i] == Send <==> rows[i].client.Client?
    ensures PassActions(rows)[i] == Create <==> rows[i].client.NoClient? && CredentialsOf(rows[i]).Configured()
    ensures Published(rows)[i].client.Client? <==> rows[i].client.Client? || CredentialsOf(rows[i]).Configured()
  {
  }

  /** A record that got a client or was sent in one pass is sent in the next, through the same client. */
  lemma NextPassSends(rows: seq<Row>)
    ensures forall i :: 0 <= i < |rows| && PassActions(rows)[i] != Wait ==>
      PassActions(Published(rows))[i] == Send && Published(Published(rows))[i].client == Published(rows)[i].client
  {
    var rows' := Published(rows);
    forall i | 0 <= i < |rows| && PassActions(rows)[i] != Wait
      ensures PassActions(rows')[i] == Send && Published(rows')[i].client == rows'[i].client
    {
      assert rows'[i].client.Client?;
    }
  }

  /** One record: an object both record lists point to. */
  class Record {
    const addr: Addr
    const rssi: int
    var readings: Readings
    var channelId: Field
    var writeKey: Field
    var client: Link

    constructor (addr: Addr, rssi: int)
      ensures Value() == Row(addr, rssi, NoReadings, Unset, Unset, NoClient)
    {
      this.addr := addr;
      this.rssi := rssi;
      readings := NoReadings;
      channelId := Unset;
      writeKey := Unset;
      client := NoClient;
    }

    ghost function Value(): Row
      reads this
    {
      Row(addr, rssi, readings, channelId, writeKey, client)
    }
  }

  ghost function RowsOf(rs: seq<Record>): (rows: seq<Row>)
    reads rs
    ensures |rows| == |rs| && forall i :: 0 <= i < |rs| ==> rows[i] == rs[i].Value()
  {
    seq(|rs|, i requires 0 <= i < |rs| reads rs => rs[i].Value())
  }

  predicate DistinctRecords(rs: seq<Record>) {
    forall i, j :: 0 <= i < j < |rs| ==> rs[i].addr != rs[j].addr
  }

  /** The record list both threads see. */
  class SharedList {
    var records: seq<Record>

    constructor ()
      ensures records == []
    {
      records := [];
    }
  }

  /** One iteration's environment: what a scan would find, what reads would give, and what the web form wrote to the store meanwhile. */
  datatype Tick = Tick(ads: seq<Advertisement>, radio: Addr -> ReadOutcome, edits: Store)

  /** One iteration of the scanner thread after the web form's writes: a scan while no record exists, else a read pass and a credential refresh. */
  function Iteration(t: Table, tick: Tick): (r: Table)
    ensures KeepsRecords(t.rows, r.rows)
    ensures |t.rows| > 0 ==> |r.rows| == |t.rows| && r.store == HMSetAll(t.store, tick.edits)
  {
    var store := HMSetAll(t.store, tick.edits);
    if |t.rows| == 0 then ScanAll(Table(t.rows, store), tick.ads)
    else Table(Refreshed(AfterReadPass(t.rows, tick.radio), store), store)
  }

  /**
   * Later rows keep every earlier record in its place as the same tag: its address, signal strength
   * and client are unchanged; only readings and credentials may differ, and records may follow.
   */
  predicate KeepsRecords(rows: seq<Row>, rows': seq<Row>) {
    |rows| <= |rows'|
    && forall i :: 0 <= i < |rows| ==>
         rows'[i].addr == rows[i].addr && rows'[i].rssi == rows[i].rssi && rows'[i].client == rows[i].client
  }

  /** The records and store after a series of iterations. */
  function Iterations(t: Table, ticks: seq<Tick>): (r: Table)
    ensures |t.rows| <= |r.rows|
  {
    if ticks == [] then t else Iteration(Iterations(t, ticks[..|ticks| - 1]), ticks[|ticks| - 1])
  }

  /** However many iterations run, every record stays in its place as the same tag with the same client. */
  lemma {:induction false} IterationsKeep(t: Table, ticks: seq<Tick>)
    ensures KeepsRecords(t.rows, Iterations(t, ticks).rows)
    decreases |ticks|
  {
    if ticks != [] {
      IterationsKeep(t, ticks[..|ticks| - 1]);
    }
  }

  /** For each iteration, whether it scanned: whether it began with no record. */
  function ScanFlags(t: Table, ticks: seq<Tick>): (flags: seq<bool>)
    ensures |flags| == |ticks|
  {
    if ticks == [] then []
    else ScanFlags(t, ticks[..|ticks| - 1]) + [|Iterations(t, ticks[..|ticks| - 1]).rows| == 0]
  }

  /** Records are never removed: a later iteration has at least as many as an earlier one. */
  lemma {:induction false} IterationsGrow(t: Table, ticks: seq<Tick>, k: nat)
    requires k <= |ticks|
    ensures |Iterations(t, ticks[..k]).rows| <= |Iterations(t, ticks).rows|
    decreases |ticks|
  {
    if k < |ticks| {
      var init := ticks[..|ticks| - 1];
      assert init[..k] == ticks[..k];
      IterationsGrow(t, init, k);
    } else {
      assert ticks[..k] == ticks;
    }
  }

  /** Iteration i scans exactly when no record exists before it. */
  lemma {:induction false} ScanFlagsAt(t: Table, ticks: seq<Tick>, i: int)
    requires 0 <= i < |ticks|
    ensures ScanFlags(t, ticks)[i] <==> |Iterations(t, ticks[..i]).rows| == 0
    decreases |ticks|
  {
    var init := ticks[..|ticks| - 1];
    if i < |init| {
      ScanFlagsAt(t, init, i);
      assert init[..i] == ticks[..i];
    }
  }

  /**
   * The thread scans exactly while no record exists: once an iteration has not scanned, no later
   * one scans, and a thread that starts with records never scans.
   */
  lemma ScanDiscipline(t: Table, ticks: seq<Tick>)
    ensures var flags := ScanFlags(t, ticks);
      && (forall i :: 0 <= i < |ticks| ==> (flags[i] <==> |Iterations(t, ticks[..i]).rows| == 0))
      && (forall i, j :: 0 <= i < j < |ticks| && !flags[i] ==> !flags[j])
      && (|t.rows| > 0 ==> forall i :: 0 <= i < |ticks| ==> !flags[i])
  {
    var flags := ScanFlags(t, ticks);
    forall i | 0 <= i < |ticks|
      ensures flags[i] <==> |Iterations(t, ticks[..i]).rows| == 0
    {
      ScanFlagsAt(t, ticks, i);
    }
    forall i, j | 0 <= i < j < |ticks| && !flags[i]
      ensures !flags[j]
    {
      ScanFlagsAt(t, ticks, i);
      ScanFlagsAt(t, ticks, j);
      IterationsGrow(t, ticks[..j], i);
      assert ticks[..j][..i] == ticks[..i];
    }
    if |t.rows| > 0 {
      forall i | 0 <= i < |ticks|
        ensures !flags[i]
      {
        ScanFlagsAt(t, ticks, i);
      }
    }
  }

  lemma IterationsLast(t: Table, ticks: seq<Tick>, i: int)
    requires 0 <= i < |ticks|
    ensures Iterations(t, ticks[..i + 1]) == Iteration(Iterations(t, ticks[..i]), ticks[i])
  {
    assert ticks[..i + 1][..i] == ticks[..i];
  }

  lemma ScanFlagsLast(t: Table, ticks: seq<Tick>, i: int)
    requires 0 <= i < |ticks|
    ensures ScanFlags(t, ticks[..i + 1]) == ScanFlags(t, ticks[..i]) + [|Iterations(t, ticks[..i]).rows| == 0]
  {
    assert ticks[..i + 1][..i] == ticks[..i];
  }

  /** An iteration that scans and sees an advertisement naming a SensorTag leaves some record. */
  lemma ScanFinds(t: Table, tick: Tick, k: int)
    requires |t.rows| == 0 && 0 <= k < |tick.ads| && HasName(tick.ads[k])
    ensures |Iteration(t, tick).rows| > 0
  {
    var start := Table(t.rows, HMSetAll(t.store, tick.edits));
    ScanAllComplete(start, tick.ads, k);
    var rows := ScanAll(start, tick.ads).rows;
    var w :| 0 <= w < |rows| && Holds(rows[w], tick.ads[k].addr);
  }

  /** A scan that sees an advertisement naming a SensorTag is the last scan. */
  lemma ScanFindsThenStops(t: Table, ticks: seq<Tick>, i: int)
    requires 0 <= i < |ticks| - 1 && ScanFlags(t, ticks)[i]
    requires exists k :: 0 <= k < |ticks[i].ads| && HasName(ticks[i].ads[k])
    ensures forall j :: i < j < |ticks| ==> !ScanFlags(t, ticks)[j]
  {
    var k :| 0 <= k < |ticks[i].ads| && HasName(ticks[i].ads[k]);
    ScanFlagsAt(t, ticks, i);
    IterationsLast(t, ticks, i);
    ScanFinds(Iterations(t, ticks[..i]), ticks[i], k);
    forall j | i < j < |ticks|
      ensures !ScanFlags(t, ticks)[j]
    {
      ScanFlagsAt(t, ticks, j);
      IterationsGrow(t, ticks[..j], i + 1);
      assert ticks[..j][..i + 1] == ticks[..i + 1];
    }
  }

  /** The scanner thread: its own record list, the shared list and the store. */
  class SensorControl {
    var data: seq<Record>
    const shared: SharedList
    var store: Store

    /** The shared list is the scanner's list, and no two records share an address. */
    ghost predicate Valid()
      reads this, shared
    {
      shared.records == data && DistinctRecords(data)
    }

    ghost function State(): Table
      reads this, data
    {
      Table(RowsOf(data), store)
    }

    constructor (shared: SharedList, store: Store)
      requires shared.records == []
      ensures Valid() && data == [] && this.shared == shared && this.store == store
    {
      data := [];
      this.shared := shared;
      this.store := store;
    }

    /** Whether some record holds this text among its field values. */
    method IsRegistered(addr: Addr) returns (found: bool)
      ensures found <==> Registered(RowsOf(data), addr)
    {
      found := false;
      if |data| != 0 {
        for i := 0 to |data|
          invariant found <==> exists j :: 0 <= j < i && Holds(data[j].Value(), addr)
        {
          var r := data[i];
          if r.addr == addr || r.channelId == Text(addr) || r.writeKey == Text(addr) {
            found := true;
          }
        }
      }
    }

    /** Adds the record of a newly found tag to both lists and writes its rssi to the store. */
    method Append(ad: Advertisement)
      requires Valid() && !Registered(RowsOf(data), ad.addr)
      modifies this, shared
      ensures Valid()
      ensures State() == Table(old(RowsOf(data)) + [NewRow(ad)], HSet(old(store), ad.addr, "rssi", Decimal(ad.rssi)))
      ensures |data| == |old(data)| + 1 && data[..|old(data)|] == old(data) && fresh(data[|old(data)|])
    {
      var rec := new Record(ad.addr, ad.rssi);
      forall i | 0 <= i < |data| ensures data[i].addr != ad.addr {
        assert !Holds(data[i].Value(), ad.addr);
      }
      data := data + [rec];
      shared.records := shared.records + [rec];
      store := HSet(store, ad.addr, "rssi", Decimal(ad.rssi));
      assert data[..|old(data)|] == old(data);
      assert RowsOf(data) == old(RowsOf(data)) + [NewRow(ad)];
    }

    /** One scan over what the radio found: every SensorTag not yet held gets a record. */
    method Scan(ads: seq<Advertisement>)
      requires Valid()
      modifies this, shared
      ensures Valid()
      ensures State() == ScanAll(old(State()), ads)
      ensures |data| >= |old(data)| && data[..|old(data)|] == old(data)
      ensures forall k :: |old(data)| <= k < |data| ==> fresh(data[k])
    {
      ghost var t0 := State();
      for i := 0 to |ads|
        invariant Valid()
        invariant State() == ScanAll(t0, ads[..i])
        invariant |data| >= |old(data)| && data[..|old(data)|] == old(data)
        invariant forall k :: |old(data)| <= k < |data| ==> fresh(data[k])
      {
        ScanDevice(ads[i]);
        assert ads[..i + 1][..i] == ads[..i];
      }
      assert ads[..|ads|] == ads;
    }

    /** The scan-data entries of one found device, in order. */
    method ScanDevice(d: Advertisement)
      requires Valid()
      modifies this, shared
      ensures Valid()
      ensures State() == ScanAd(old(State()), d, d.scanData)
      ensures |data| >= |old(data)| && data[..|old(data)|] == old(data)
      ensures forall k :: |old(data)| <= k < |data| ==> fresh(data[k])
    {
      ghost var before := State();
      var entries := d.scanData;
      for j := 0 to |entries|
        invariant Valid()
        invariant State() == ScanAd(before, d, entries[..j])
        invariant |data| >= |old(data)| && data[..|old(data)|] == old(data)
        invariant forall k :: |old(data)| <= k < |data| ==> fresh(data[k])
      {
        Consider(d, entries[j]);
        assert entries[..j + 1][..j] == entries[..j];
      }
      assert entries[..|entries|] == entries;
    }

    /** One scan-data entry of a found device: a SensorTag name for an address no record holds appends its record. */
    method Consider(d: Advertisement, e: AdEntry)
      requires Valid()
      modifies this, shared
      ensures Valid()
      ensures State() == ScanEntry(old(State()), d, e)
      ensures |data| >= |old(data)| && data[..|old(data)|] == old(data)
      ensures forall k :: |old(data)| <= k < |data| ==> fresh(data[k])
    {
      if e.adType == CompleteLocalName && e.value == SensorTagName {
        var known := IsRegistered(d.addr);
        if !known {
          Append(d);
        }
      }
    }

    /** Reads every record's sensors; a disconnect zeroes that record's readings and the pass goes on. */
    method GetData(radio: Addr -> ReadOutcome)
      requires Valid()
      modifies data`readings
      ensures RowsOf(data) == AfterReadPass(old(RowsOf(data)), radio)
    {
      for i := 0 to |data|
        invariant forall j :: 0 <= j < i ==> data[j].readings == ReadingsAfter(radio(data[j].addr))
        invariant forall j :: i <= j < |data| ==> data[j].readings == old(data[j].readings)
      {
        var r := data[i];
        match radio(r.addr)
        case Reading(temp, hum, pressure, light, battery) =>
          r.readings := r.readings.(d1 := temp, d2 := hum, d3 := pressure, d5 := light, d4 := battery);
        case Disconnected =>
          r.readings := r.readings.(d1 := 0, d2 := 0, d3 := 0, d5 := 0, d4 := 0);
      }
    }

    /** Copies every shared record's credentials from the store, each 0 where the store has none. */
    method GetWriteKey()
      requires Valid()
      modifies data`channelId, data`writeKey
      ensures RowsOf(data) == Refreshed(old(RowsOf(data)), store)
    {
      var records := shared.records;
      for i := 0 to |records|
        invariant forall j :: 0 <= j < i ==>
          data[j].channelId == Lookup(store, data[j].addr).channelId && data[j].writeKey == Lookup(store, data[j].addr).writeKey
        invariant forall j :: i <= j < |data| ==> data[j].channelId == old(data[j].channelId) && data[j].writeKey == old(data[j].writeKey)
      {
        var r := records[i];
        var fields := HGetAll(store, r.addr);
        var writeKey := Unset;
        var channelId := Unset;
        if "write_key" in fields {
          writeKey := Text(fields["write_key"]);
        }
        if "channelId" in fields {
          channelId := Text(fields["channelId"]);
        }
        r.writeKey := writeKey;
        r.channelId := channelId;
      }
    }

    /** One iteration of the thread: scan while no record exists, else read every tag and refresh credentials. */
    method Iterate(radio: Addr -> ReadOutcome, ads: seq<Advertisement>) returns (scanned: bool)
      requires Valid()
      modifies this, shared, data
      ensures Valid()
      ensures scanned <==> old(|data|) == 0
      ensures scanned ==> State() == ScanAll(old(State()), ads)
      ensures !scanned ==> data == old(data) && store == old(store) && RowsOf(data) == Refreshed(AfterReadPass(old(RowsOf(data)), radio), store)
      ensures |data| >= |old(data)| && data[..|old(data)|] == old(data)
      ensures forall k :: |old(data)| <= k < |data| ==> fresh(data[k])
    {
      if |data| == 0 {
        Scan(ads);
        scanned := true;
      } else {
        GetData(radio);
        GetWriteKey();
        scanned := false;
      }
    }

    /**
     * The thread's loop over its iterations, the web form's writes landing in the store before
     * each: records and store follow Iterations, and it scans exactly in the iterations ScanFlags
     * names, those that begin with no record (see ScanDiscipline).
     */
    method Run(ticks: seq<Tick>) returns (scanned: seq<bool>)
      requires Valid()
      modifies this, shared, data
      ensures Valid()
      ensures State() == Iterations(old(State()), ticks)
      ensures scanned == ScanFlags(old(State()), ticks)
      ensures |data| >= |old(data)| && data[..|old(data)|] == old(data)
    {
      ghost var t0 := State();
      scanned := [];
      for i := 0 to |ticks|
        invariant Valid()
        invariant State() == Iterations(t0, ticks[..i])
        invariant scanned == ScanFlags(t0, ticks[..i])
        invariant |data| >= |old(data)| && data[..|old(data)|] == old(data)
        invariant forall k :: |old(data)| <= k < |data| ==> fresh(data[k])
      {
        var s := Step(ticks[i]);
        scanned := scanned + [s];
        IterationsLast(t0, ticks, i);
        ScanFlagsLast(t0, ticks, i);
      }
      assert ticks[..|ticks|] == ticks;
    }

    /** The web form's writes land in the store, then one iteration of the thread runs. */
    method Step(tick: Tick) returns (scanned: bool)
      requires Valid()
      modifies this, shared, data
      ensures Valid()
      ensures State() == Iteration(old(State()), tick)
      ensures scanned <==> |old(data)| == 0
      ensures |data| >= |old(data)| && data[..|old(data)|] == old(data)
      ensures forall k :: |old(data)| <= k < |data| ==> fresh(data[k])
    {
      ghost var before := State();
      store := HMSetAll(store, tick.edits);
      assert State() == Table(before.rows, HMSetAll(before.store, tick.edits));
      scanned := Iterate(tick.radio, tick.ads);
    }
  }

  /** The publisher thread: it walks the shared list. */
  class AmbientControl {
    const shared: SharedList

    constructor (shared: SharedList)
      ensures this.shared == shared
    {
      this.shared := shared;
    }

    /** One pass: each record with a client is sent; each without one gets a client unless both credentials are 0. */
    method Pass() returns (actions: seq<Action>)
      requires DistinctRecords(shared.records)
      modifies shared.records`client
      ensures RowsOf(shared.records) == Published(old(RowsOf(shared.records)))
      ensures actions == PassActions(old(RowsOf(shared.records)))
    {
      actions := [];
      var records := shared.records;
      if |records| != 0 {
        for i := 0 to |records|
          invariant |actions| == i
          invariant forall j :: 0 <= j < i ==>
            records[j].client == Cycle(old(records[j].client), Credentials(records[j].channelId, records[j].writeKey)).0
            && actions[j] == Cycle(old(records[j].client), Credentials(records[j].channelId, records[j].writeKey)).1
          invariant forall j :: i <= j < |records| ==> records[j].client == old(records[j].client)
        {
          var d := records[i];
          if d.client.Client? {
            actions := actions + [Send];
          } else if !(d.writeKey == Unset && d.channelId == Unset) {
            d.client := Client(Credentials(d.channelId, d.writeKey));
            actions := actions + [Create];
          } else {
            actions := actions + [Wait];
          }
        }
      }
    }
  }
}
