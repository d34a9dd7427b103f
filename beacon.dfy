/**
 * The MJ_HT_V1 scanner: a discovery handler that registers thermometers whose address contains the vendor text, keeps
 * the decoded sample of each one, and hands it to a per-device worker that keeps the latest
 * strictly positive readings and publishes them once a telemetry client exists.
 *
 * Registry is the abstract state of the scanner and Discover the effect of one discovery on it;
 * the classes below are proved against them.
 */
module Beacon {
  import opened Ble
  import opened Telemetry
  import opened MjHt

  /** The vendor text whose occurrence anywhere in an address marks a thermometer to register. */
  const Vendor := "4c:65:a8:dc"

  /** Readings a sample is merged into: d1, d2, d3 take temperature, humidity and battery; d4 and d5 are not written. */
  function Merge(d: Readings, s: Sample): (r: Readings)
    ensures r.d4 == d.d4 && r.d5 == d.d5
    ensures (s.temp <= 0 ==> r.d1 == d.d1) && (s.hum <= 0 ==> r.d2 == d.d2) && (s.batt <= 0 ==> r.d3 == d.d3)
    ensures (d.d1 > 0 ==> r.d1 > 0) && (d.d2 > 0 ==> r.d2 > 0) && (d.d3 > 0 ==> r.d3 > 0)
  {
    Readings(
      if s.temp > 0 then s.temp else d.d1,
      if s.hum > 0 then s.hum else d.d2,
      if s.batt > 0 then s.batt else d.d3,
      d.d4,
      d.d5)
  }

  /**
   * A slot changes only to a strictly positive reading of its quantity, a strictly positive reading
   * is always stored, a slot once positive stays positive, and d4 and d5 are never written.
   */
  lemma MergeOnlyStoresPositive(d: Readings, s: Sample, k: Kind)
    ensures Slot(Merge(d, s), k) == (if Measured(s, k) > 0 then Measured(s, k) else Slot(d, k))
    ensures Slot(d, k) > 0 ==> Slot(Merge(d, s), k) > 0
    ensures Merge(d, s).d4 == d.d4 && Merge(d, s).d5 == d.d5
  {
  }

  /** Merging the same sample twice stores what merging it once does. */
  lemma MergeIdempotent(d: Readings, s: Sample)
    ensures Merge(Merge(d, s), s) == Merge(d, s)
  {
  }

  /** The three measured quantities, and where a worker keeps each one. */
  datatype Kind = Temp | Hum | Batt

  function Measured(s: Sample, k: Kind): int {
    match k
    case Temp => s.temp
    case Hum => s.hum
    case Batt => s.batt
  }

  function Slot(d: Readings, k: Kind): int {
    match k
    case Temp => d.d1
    case Hum => d.d2
    case Batt => d.d3
  }

  /** Readings after merging a series of samples, oldest first. */
  function MergeSeries(d: Readings, ss: seq<Sample>): Readings {
    if ss == [] then d else Merge(MergeSeries(d, ss[..|ss| - 1]), ss[|ss| - 1])
  }

  /**
   * After a series of samples each slot holds the last strictly positive value of its quantity,
   * or its old value when there was none: a zero or negative reading never replaces one.
   */
  lemma {:induction false} MergeSeriesLatest(d: Readings, ss: seq<Sample>, k: Kind)
    ensures (forall i :: 0 <= i < |ss| ==> Measured(ss[i], k) <= 0) ==> Slot(MergeSeries(d, ss), k) == Slot(d, k)
    ensures forall i :: 0 <= i < |ss| && Measured(ss[i], k) > 0 && (forall j :: i < j < |ss| ==> Measured(ss[j], k) <= 0) ==>
      Slot(MergeSeries(d, ss), k) == Measured(ss[i], k)
    ensures MergeSeries(d, ss).d4 == d.d4 && MergeSeries(d, ss).d5 == d.d5
    decreases |ss|
  {
    if ss != [] {
      var init := ss[..|ss| - 1];
      MergeSeriesLatest(d, init, k);
      forall i | 0 <= i < |ss| - 1 && Measured(ss[i], k) > 0 && (forall j :: i < j < |ss| ==> Measured(ss[j], k) <= 0)
        ensures Slot(MergeSeries(d, ss), k) == Measured(ss[i], k)
      {
        assert init[i] == ss[i];
        assert forall j :: i < j < |init| ==> init[j] == ss[j];
      }
      if forall i :: 0 <= i < |ss| ==> Measured(ss[i], k) <= 0 {
        assert forall i :: 0 <= i < |init| ==> init[i] == ss[i];
      }
    }
  }

  /** The change one advertisement's scan data makes to a sample: each service-data entry in turn. */
  function EntryDelta(e: AdEntry): Delta {
    if e.adType != ServiceData16 then Nothing
    else match Decode(e.value)
      case Update(d) => d
      case _ => Nothing
  }

  function AbsorbEntries(s: Sample, entries: seq<AdEntry>): Sample {
    if entries == [] then s
    else
      var e := entries[|entries| - 1];
      var prev := AbsorbEntries(s, entries[..|entries| - 1]);
      if e.adType == ServiceData16 then Absorb(prev, e.value) else prev
  }

  /** The combined change of a series of entries: a later reading overrides an earlier one. */
  function NetDelta(entries: seq<AdEntry>): Delta {
    if entries == [] then Nothing
    else Override(NetDelta(entries[..|entries| - 1]), EntryDelta(entries[|entries| - 1]))
  }

  lemma ApplyOverride(s: Sample, d1: Delta, d2: Delta)
    ensures Apply(Apply(s, d1), d2) == Apply(s, Override(d1, d2))
  {
  }

  /** Handling a series of entries is applying their combined change once. */
  lemma {:induction false} AbsorbEntriesNet(s: Sample, entries: seq<AdEntry>)
    ensures AbsorbEntries(s, entries) == Apply(s, NetDelta(entries))
    decreases |entries|
  {
    if entries != [] {
      var init, e := entries[..|entries| - 1], entries[|entries| - 1];
      AbsorbEntriesNet(s, init);
      ApplyOverride(s, NetDelta(init), EntryDelta(e));
    }
  }

  /** Handling the same scan data twice leaves the sample as handling it once. */
  lemma AbsorbEntriesTwice(s: Sample, entries: seq<AdEntry>)
    ensures AbsorbEntries(AbsorbEntries(s, entries), entries) == AbsorbEntries(s, entries)
  {
    AbsorbEntriesNet(s, entries);
    AbsorbEntriesNet(AbsorbEntries(s, entries), entries);
  }

  /** The scan-data loop of the discovery handler: every service-data entry decoded into the sample in turn. */
  method AbsorbAll(s0: Sample, entries: seq<AdEntry>) returns (s: Sample)
    ensures s == AbsorbEntries(s0, entries)
  {
    s := s0;
    for i := 0 to |entries|
      invariant s == AbsorbEntries(s0, entries[..i])
    {
      var e := entries[i];
      if e.adType == ServiceData16 {
        s := Absorb(s, e.value);
      }
      assert entries[..i + 1][..i] == entries[..i];
    }
    assert entries[..|entries|] == entries;
  }

  /** (address, readings) pairs, one per worker, in registration order. */
  type Pairs = seq<(Addr, Readings)>

  function Keys(ps: Pairs): set<Addr> {
    set i | 0 <= i < |ps| :: ps[i].0
  }

  predicate DistinctKeys(ps: Pairs) {
    forall i, j :: 0 <= i < j < |ps| ==> ps[i].0 != ps[j].0
  }

  /** The pairs after a sample is merged into the readings held under one address. */
  function MergeAt(ps: Pairs, a: Addr, s: Sample): (qs: Pairs)
    ensures |qs| == |ps|
    ensures forall i :: 0 <= i < |ps| ==> qs[i] == if ps[i].0 == a then (a, Merge(ps[i].1, s)) else ps[i]
  {
    seq(|ps|, i requires 0 <= i < |ps| => if ps[i].0 == a then (a, Merge(ps[i].1, s)) else ps[i])
  }

  /** Merging never changes which addresses are held. */
  lemma MergeAtKeys(ps: Pairs, a: Addr, s: Sample)
    ensures Keys(MergeAt(ps, a, s)) == Keys(ps)
    ensures DistinctKeys(ps) ==> DistinctKeys(MergeAt(ps, a, s))
  {
    var qs := MergeAt(ps, a, s);
    assert forall i :: 0 <= i < |ps| ==> qs[i].0 == ps[i].0;
    forall b | b in Keys(ps) ensures b in Keys(qs) {
      var i :| 0 <= i < |ps| && ps[i].0 == b;
      assert qs[i].0 == b;
    }
  }

  /** Merging the same sample twice under one address gives the pairs of merging it once. */
  lemma MergeAtTwice(ps: Pairs, a: Addr, s: Sample)
    ensures MergeAt(MergeAt(ps, a, s), a, s) == MergeAt(ps, a, s)
  {
    var qs := MergeAt(ps, a, s);
    forall i | 0 <= i < |ps| ensures MergeAt(qs, a, s)[i] == qs[i] {
      MergeIdempotent(ps[i].1, s);
    }
  }

  /** The scanner's abstract state: the workers' pairs, the decoded sample of each registered device, and the store. */
  datatype Registry = Registry(workers: Pairs, samples: map<Addr, Sample>, store: Store) {
    /** No two workers share an address, and exactly the workers' addresses have a sample. */
    ghost predicate Valid() {
      DistinctKeys(workers) && samples.Keys == Keys(workers)
    }
  }

  /**
   * Registering an address: nothing changes when some worker has it; else a worker with zero
   * readings is appended, its sample is zero and its rssi field in the store is 0.
   */
  function Register(r: Registry, a: Addr): (r': Registry)
    requires r.Valid()
    ensures r'.Valid() && a in Keys(r'.workers)
  {
    if a in Keys(r.workers) then r
    else
      var ws := r.workers + [(a, NoReadings)];
      assert ws[..|r.workers|] == r.workers;
      assert Keys(ws) == Keys(r.workers) + {a} by {
        forall b | b in Keys(ws) && b != a ensures b in Keys(r.workers) {
          var i :| 0 <= i < |ws| && ws[i].0 == b;
          assert r.workers[i].0 == b;
        }
        forall b | b in Keys(r.workers) ensures b in Keys(ws) {
          var i :| 0 <= i < |r.workers| && r.workers[i].0 == b;
          assert ws[i].0 == b;
        }
        assert ws[|r.workers|].0 == a;
      }
      Registry(ws, r.samples[a := NoSample], HSet(r.store, a, "rssi", "0"))
  }

  /** A registered device's new sample: kept as its sample and merged into its worker's readings. */
  function Deliver(r: Registry, a: Addr, s: Sample): (r': Registry)
    requires r.Valid() && a in Keys(r.workers)
    ensures r'.Valid()
  {
    MergeAtKeys(r.workers, a, s);
    Registry(MergeAt(r.workers, a, s), r.samples[a := s], r.store)
  }

  /**
   * One discovery: register the device when its address contains the vendor text; then, if it is
   * registered, fold its service data into its sample and merge the sample into its worker.
   */
  function Discover(r: Registry, dev: Advertisement): (r': Registry)
    requires r.Valid()
    ensures r'.Valid()
  {
    Absorbed(if HasSubstring(dev.addr, Vendor) then Register(r, dev.addr) else r, dev)
  }

  /** The second half of a discovery: a registered device's service data folded into its sample and delivered. */
  function Absorbed(r: Registry, dev: Advertisement): (r': Registry)
    requires r.Valid()
    ensures r'.Valid()
  {
    if dev.addr in Keys(r.workers) then Deliver(r, dev.addr, AbsorbEntries(r.samples[dev.addr], dev.scanData))
    else r
  }

  /**
   * What a registration does: nothing when some worker has the address; else a worker with zero
   * readings is appended after the existing ones, its sample is zero and its rssi field is 0, the
   * one store field written.
   */
  lemma RegisterEffect(r: Registry, a: Addr)
    requires r.Valid()
    ensures a in Keys(r.workers) ==> Register(r, a) == r
    ensures a !in Keys(r.workers) ==> var r' := Register(r, a);
      && |r'.workers| == |r.workers| + 1 && r'.workers[..|r.workers|] == r.workers
      && r'.workers[|r.workers|] == (a, NoReadings) && r'.samples == r.samples[a := NoSample]
      && r'.store == HSet(r.store, a, "rssi", "0")
      && HGetAll(r'.store, a)["rssi"] == "0"
  {
    if a !in Keys(r.workers) {
      assert (r.workers + [(a, NoReadings)])[..|r.workers|] == r.workers;
    }
  }

  /**
   * What a delivery does: the device's sample is replaced and exactly that device's worker merges
   * it; no other sample, worker or store field changes.
   */
  lemma DeliverEffect(r: Registry, a: Addr, s: Sample)
    requires r.Valid() && a in Keys(r.workers)
    ensures var r' := Deliver(r, a, s);
      && r'.store == r.store && |r'.workers| == |r.workers| && r'.samples == r.samples[a := s]
      && forall i :: 0 <= i < |r.workers| ==>
           r'.workers[i] == if r.workers[i].0 == a then (a, Merge(r.workers[i].1, s)) else r.workers[i]
  {
  }

  /**
   * What a discovery does: at most one worker is added, exactly when the address is new and has
   * the vendor text; other devices' workers and samples are untouched; a new address without
   * the vendor text changes nothing; the store changes only by that new address's rssi field.
   */
  lemma DiscoverEffect(r: Registry, dev: Advertisement)
    requires r.Valid()
    ensures var r' := Discover(r, dev);
      && |r.workers| <= |r'.workers| <= |r.workers| + 1
      && (|r'.workers| == |r.workers| + 1 <==> dev.addr !in Keys(r.workers) && HasSubstring(dev.addr, Vendor))
      && (forall i :: 0 <= i < |r.workers| && r.workers[i].0 != dev.addr ==> r'.workers[i] == r.workers[i])
      && (forall b :: b != dev.addr && b in r.samples ==> b in r'.samples && r'.samples[b] == r.samples[b])
      && (dev.addr !in Keys(r.workers) && !HasSubstring(dev.addr, Vendor) ==> r' == r)
      && r'.store == if dev.addr !in Keys(r.workers) && HasSubstring(dev.addr, Vendor)
                     then HSet(r.store, dev.addr, "rssi", "0") else r.store
  {
    var r1 := if HasSubstring(dev.addr, Vendor) then Register(r, dev.addr) else r;
    RegisterEffect(r, dev.addr);
    if dev.addr in Keys(r1.workers) {
      DeliverEffect(r1, dev.addr, AbsorbEntries(r1.samples[dev.addr], dev.scanData));
    }
  }

  /** Folding the same service data into a registered device twice gives the state of folding it once. */
  lemma AbsorbedTwice(r: Registry, dev: Advertisement)
    requires r.Valid() && dev.addr in Keys(r.workers)
    ensures Keys(Absorbed(r, dev).workers) == Keys(r.workers)
    ensures Absorbed(Absorbed(r, dev), dev) == Absorbed(r, dev)
  {
    var s := AbsorbEntries(r.samples[dev.addr], dev.scanData);
    MergeAtKeys(r.workers, dev.addr, s);
    AbsorbEntriesTwice(r.samples[dev.addr], dev.scanData);
    MergeAtTwice(r.workers, dev.addr, s);
  }

  /** The same advertisement delivered again leaves the scanner's state as it was after the first delivery. */
  lemma RedeliveryChangesNothing(r: Registry, dev: Advertisement)
    requires r.Valid()
    ensures Discover(Discover(r, dev), dev) == Discover(r, dev)
  {
    var r1 := if HasSubstring(dev.addr, Vendor) then Register(r, dev.addr) else r;
    RegisterEffect(r, dev.addr);
    if dev.addr in Keys(r1.workers) {
      AbsorbedTwice(r1, dev);
      var r2 := Absorbed(r1, dev);
      RegisterEffect(r2, dev.addr);
      assert Discover(r2, dev) == Absorbed(r2, dev);
    }
  }

  /** A worker: one polled thermometer, its latest readings and its telemetry client. */
  class SensorAccess {
    const addr: Addr
    var data: Readings
    var link: Link

    constructor (addr: Addr)
      ensures this.addr == addr && data == NoReadings && link == NoClient
    {
      this.addr := addr;
      data := NoReadings;
      link := NoClient;
    }

    /** Stores the strictly positive readings of a sample. */
    method SetData(s: Sample)
      modifies this`data
      ensures data == Merge(old(data), s)
    {
      if s.temp > 0 { data := data.(d1 := s.temp); }
      if s.hum > 0 { data := data.(d2 := s.hum); }
      if s.batt > 0 { data := data.(d3 := s.batt); }
    }

    /** One pass of the worker loop: without a client, look up the credentials and create one if allowed; with one, send. */
    method Step(store: Store) returns (action: Action)
      modifies this`link
      ensures (link, action) == Cycle(old(link), Lookup(store, addr))
    {
      if link == NoClient {
        var creds := Lookup(store, addr);
        if creds.Configured() {
          link := Client(creds);
          action := Create;
        } else {
          action := Wait;
        }
      } else {
        action := Send;
      }
    }

    /** The worker loop over the passes before it is stopped, the i-th pass seeing the store as stores[i]. */
    method Run(stores: seq<Store>) returns (actions: seq<Action>)
      modifies this`link
      ensures (link, actions) == Telemetry.Run(old(link), Lookups(stores, addr))
    {
      actions := [];
      for i := 0 to |stores|
        invariant (link, actions) == Telemetry.Run(old(link), Lookups(stores[..i], addr))
      {
        var action := Step(stores[i]);
        actions := actions + [action];
        assert Lookups(stores[..i + 1], addr)[..i] == Lookups(stores[..i], addr);
      }
      assert stores[..|stores|] == stores;
    }
  }

  /** The credentials a worker sees at each pass. */
  function Lookups(stores: seq<Store>, addr: Addr): (cs: seq<Credentials>)
    ensures |cs| == |stores|
    ensures forall i :: 0 <= i < |stores| ==> cs[i] == Lookup(stores[i], addr)
  {
    seq(|stores|, i requires 0 <= i < |stores| => Lookup(stores[i], addr))
  }

  /** The discovery handler: the workers, the decoded sample of each registered device, and the store. */
  class SensorControl {
    var workers: seq<SensorAccess>
    var readData: map<Addr, Sample>
    var store: Store

    ghost function Addrs(): set<Addr>
      reads this`workers
    {
      set i | 0 <= i < |workers| :: workers[i].addr
    }

    /** No two workers share an address. */
    ghost predicate Distinct()
      reads this`workers
    {
      forall i, j :: 0 <= i < j < |workers| ==> workers[i].addr != workers[j].addr
    }

    /** No two workers share an address, and exactly the registered addresses have a sample. */
    ghost predicate Valid()
      reads this
    {
      Distinct() && readData.Keys == Addrs()
    }

    /** Each worker's address and readings, in registration order. */
    ghost function Pairs(): (ps: Pairs)
      reads this`workers, workers
      ensures |ps| == |workers| && forall i :: 0 <= i < |workers| ==> ps[i] == (workers[i].addr, workers[i].data)
    {
      var ws := workers;
      seq(|ws|, i requires 0 <= i < |ws| reads ws => (ws[i].addr, ws[i].data))
    }

    lemma PairsKeys()
      ensures Keys(Pairs()) == Addrs() && (Distinct() ==> DistinctKeys(Pairs()))
    {
      var ps := Pairs();
      forall b | b in Addrs() ensures b in Keys(ps) {
        var i :| 0 <= i < |workers| && workers[i].addr == b;
        assert ps[i].0 == b;
      }
    }

    ghost function Abstract(): (r: Registry)
      reads this, workers
      ensures Keys(r.workers) == Addrs() && (Valid() ==> r.Valid())
    {
      PairsKeys();
      Registry(Pairs(), readData, store)
    }

    constructor (store: Store)
      ensures Valid() && workers == [] && readData == map[] && this.store == store
    {
      workers := [];
      readData := map[];
      this.store := store;
    }

    /** Whether some worker has this address. */
    method IsRegistered(addr: Addr) returns (ret: bool)
      ensures ret <==> addr in Addrs()
    {
      ret := false;
      if |workers| == 0 {
        return false;
      }
      for i := 0 to |workers|
        invariant ret <==> exists j :: 0 <= j < i && workers[j].addr == addr
      {
        if workers[i].addr == addr {
          ret := true;
        }
      }
    }

    /** Registers a new address: refused, changing nothing, when some worker has it; else one new worker. */
    method RegisterAmbient(addr: Addr) returns (ok: bool)
      requires Valid()
      modifies this
      ensures Valid()
      ensures ok <==> addr !in old(Addrs())
      ensures Abstract() == Register(old(Abstract()), addr)
      ensures |workers| >= |old(workers)| && workers[..|old(workers)|] == old(workers)
      ensures ok ==> fresh(workers[|old(workers)|]) && workers[|old(workers)|].link == NoClient
    {
      var known := IsRegistered(addr);
      if known {
        return false;
      }
      PairsKeys();
      store := HSet(store, addr, "rssi", "0");
      var w := new SensorAccess(addr);
      workers := workers + [w];
      readData := readData[addr := NoSample];
      assert workers[..|old(workers)|] == old(workers);
      assert Pairs() == old(Pairs()) + [(addr, NoReadings)];
      assert Addrs() == old(Addrs()) + {addr} by {
        assert forall i :: 0 <= i < |old(workers)| ==> workers[i] == old(workers)[i];
        assert workers[|workers| - 1].addr == addr;
      }
      assert Distinct() by {
        assert forall i :: 0 <= i < |old(workers)| ==> workers[i] == old(workers)[i] && workers[i].addr != addr;
      }
      assert readData.Keys == Addrs() by {
        assert readData == old(readData)[addr := NoSample];
      }
      PairsKeys();
      return true;
    }

    /** Stores a sample into the worker with this address, if any. */
    method SetData(addr: Addr, param: Sample)
      requires Valid()
      modifies workers`data
      ensures unchanged(this)
      ensures Pairs() == MergeAt(old(Pairs()), addr, param)
    {
      var known := IsRegistered(addr);
      if known {
        for i := 0 to |workers|
          invariant forall j :: 0 <= j < i ==>
            workers[j].data == if workers[j].addr == addr then Merge(old(workers[j].data), param) else old(workers[j].data)
          invariant forall j :: i <= j < |workers| ==> workers[j].data == old(workers[j].data)
        {
          if workers[i].addr == addr {
            workers[i].SetData(param);
          }
        }
      }
    }

    /** The discovery handler for one scanned device. */
    method HandleDiscovery(dev: Advertisement)
      requires Valid()
      modifies this, workers`data
      ensures Valid()
      ensures Abstract() == Discover(old(Abstract()), dev)
    {
      var vendor := HasSubstring(dev.addr, Vendor);
      if vendor {
        var _ := RegisterAmbient(dev.addr);
      }
      Receive(dev);
    }

    /** The rest of the handler: a registered device's service data decoded into its sample, which its worker then merges. */
    method Receive(dev: Advertisement)
      requires Valid()
      modifies this`readData, workers`data
      ensures Valid() && workers == old(workers)
      ensures Abstract() == Absorbed(old(Abstract()), dev)
    {
      ghost var r0 := Abstract();
      var known := IsRegistered(dev.addr);
      PairsKeys();
      if known {
        var s := AbsorbAll(readData[dev.addr], dev.scanData);
        assert Abstract() == r0;
        Update(dev.addr, s);
        assert Abstract() == Deliver(r0, dev.addr, s);
        assert Absorbed(r0, dev) == Deliver(r0, dev.addr, s);
      } else {
        assert Absorbed(r0, dev) == r0;
      }
      assert r0 == old(Abstract());
    }

    /** Keeps a registered device's new sample and hands it to the device's worker. */
    method Update(addr: Addr, s: Sample)
      requires Valid() && addr in Addrs()
      modifies this`readData, workers`data
      ensures Valid() && workers == old(workers)
      ensures Abstract() == Deliver(old(Abstract()), addr, s)
    {
      ghost var r0 := Abstract();
      readData := readData[addr := s];
      assert Pairs() == r0.workers;
      SetData(addr, s);
      assert Abstract() == Registry(MergeAt(r0.workers, addr, s), r0.samples[addr := s], r0.store);
    }
  }
}
