/**
 * The key-value store that holds per-device credentials, the credential lookup, and the
 * telemetry-client state machine that both publish loops run: no client yet -> try to create
 * one from the stored credentials; client present -> send the latest readings.
 */
module Telemetry {
  import opened Ble

  /** The key-value store: each key (a device address) holds a mapping from field name to text. */
  type Store = map<Addr, map<string, string>>

  /** All fields of a key, as `hgetall`; a key never written holds no field. */
  function HGetAll(store: Store, key: Addr): map<string, string> {
    if key in store then store[key] else map[]
  }

  /** Writes one field of one key, as `hset`. */
  function HSet(store: Store, key: Addr, field: string, value: string): (r: Store)
    ensures HGetAll(r, key) == HGetAll(store, key)[field := value]
    ensures forall k :: k != key ==> HGetAll(r, k) == HGetAll(store, k)
  {
    store[key := HGetAll(store, key)[field := value]]
  }

  /** Writes every field of `edits` into the store, key by key, as a series of `hmset` calls. */
  function HMSetAll(store: Store, edits: Store): (r: Store)
    ensures forall k :: HGetAll(r, k) == HGetAll(store, k) + HGetAll(edits, k)
  {
    map k | k in store.Keys + edits.Keys :: HGetAll(store, k) + HGetAll(edits, k)
  }

  /** The five values a device reports to the telemetry sink (fields d1..d5 of its record). */
  datatype Readings = Readings(d1: int, d2: int, d3: int, d4: int, d5: int)

  const NoReadings := Readings(0, 0, 0, 0, 0)

  /** A credential as the publish loops hold it: the integer 0 when the store lacks the field, else its text. */
  datatype Field = Unset | Text(value: string)

  datatype Credentials = Credentials(channelId: Field, writeKey: Field) {
    /** A client is created unless both fields are still 0. */
    predicate Configured() {
      !(channelId == Unset && writeKey == Unset)
    }
  }

  function FieldOf(fields: map<string, string>, name: string): (f: Field)
    ensures f == Unset <==> name !in fields
    ensures f.Text? ==> f.value == fields[name]
  {
    if name in fields then Text(fields[name]) else Unset
  }

  /** The channel id and write key stored for a device, each defaulting to 0 when missing. */
  function Lookup(store: Store, addr: Addr): (c: Credentials)
    ensures c.Configured() <==> "channelId" in HGetAll(store, addr) || "write_key" in HGetAll(store, addr)
    ensures c.channelId == FieldOf(HGetAll(store, addr), "channelId")
    ensures c.writeKey == FieldOf(HGetAll(store, addr), "write_key")
  {
    var fields := HGetAll(store, addr);
    Credentials(FieldOf(fields, "channelId"), FieldOf(fields, "write_key"))
  }

  /** The telemetry client of one device: absent, or created once from the credentials of that moment. */
  datatype Link = NoClient | Client(credentials: Credentials)

  /** What one cycle of a publish loop did. */
  datatype Action = Create | Send | Wait

  /** One cycle: with a client, send; without one, create it when the credentials allow, else wait. */
  function Cycle(link: Link, creds: Credentials): (r: (Link, Action))
    ensures r.1 == Send <==> link.Client?
    ensures r.1 == Create <==> link.NoClient? && creds.Configured()
    ensures r.1 == Create ==> r.0 == Client(creds)
    ensures link.Client? ==> r.0 == link
    ensures r.0.Client? <==> link.Client? || creds.Configured()
  {
    match link
    case Client(_) => (link, Send)
    case NoClient => if creds.Configured() then (Client(creds), Create) else (NoClient, Wait)
  }

  /** Consecutive cycles, the i-th seeing credentials creds[i]: the final link and the actions taken. */
  function Run(link: Link, creds: seq<Credentials>): (r: (Link, seq<Action>))
    ensures |r.1| == |creds|
    ensures r.0.NoClient? ==> link.NoClient?
  {
    if creds == [] then (link, [])
    else
      var prev := Run(link, creds[..|creds| - 1]);
      var step := Cycle(prev.0, creds[|creds| - 1]);
      (step.0, prev.1 + [step.1])
  }

  /** Some cycle before the i-th saw credentials that allow a client. */
  predicate ConfiguredBefore(creds: seq<Credentials>, i: nat)
    requires i <= |creds|
  {
    exists j :: 0 <= j < i && creds[j].Configured()
  }

  /** Running the first k cycles gives the first k actions of the whole run. */
  lemma {:induction false} RunPrefix(link: Link, creds: seq<Credentials>, k: nat)
    requires k <= |creds|
    ensures Run(link, creds[..k]).1 == Run(link, creds).1[..k]
    decreases |creds|
  {
    if k < |creds| {
      assert creds[..|creds| - 1][..k] == creds[..k];
      RunPrefix(link, creds[..|creds| - 1], k);
    } else {
      assert creds[..k] == creds;
    }
  }

  /** Starting without a client, a client exists after the run iff some cycle saw usable credentials. */
  lemma {:induction false} RunLink(creds: seq<Credentials>)
    ensures Run(NoClient, creds).0.Client? <==> ConfiguredBefore(creds, |creds|)
    decreases |creds|
  {
    if creds != [] {
      var init := creds[..|creds| - 1];
      RunLink(init);
      if ConfiguredBefore(init, |init|) {
        var j :| 0 <= j < |init| && init[j].Configured();
        assert creds[j].Configured();
      }
      if ConfiguredBefore(creds, |creds|) && !creds[|creds| - 1].Configured() {
        var j :| 0 <= j < |creds| && creds[j].Configured();
        assert init[j].Configured();
      }
    }
  }

  /**
   * The action of cycle i, starting without a client: send once some earlier cycle saw usable
   * credentials, create when this is the first cycle that sees them, wait otherwise.
   */
  lemma {:induction false} RunActionAt(creds: seq<Credentials>, i: nat)
    requires i < |creds|
    ensures Run(NoClient, creds).1[i] ==
      if ConfiguredBefore(creds, i) then Send
      else if creds[i].Configured() then Create
      else Wait
  {
    var upto := creds[..i + 1];
    RunPrefix(NoClient, creds, i + 1);
    assert Run(NoClient, creds).1[i] == Run(NoClient, upto).1[i];
    assert upto[..i] == creds[..i];
    RunLink(creds[..i]);
    assert ConfiguredBefore(creds[..i], i) == ConfiguredBefore(creds, i) by {
      if ConfiguredBefore(creds, i) {
        var j :| 0 <= j < i && creds[j].Configured();
        assert creds[..i][j].Configured();
      }
    }
  }

  /**
   * Starting without a client, a run creates a client at most once, and every send happens in a
   * later cycle than the creation: no cycle both creates and sends.
   */
  lemma CreateOnceThenSend(creds: seq<Credentials>)
    ensures var acts := Run(NoClient, creds).1;
      && (forall i, j :: 0 <= i < j < |acts| && acts[i] == Create ==> acts[j] == Send)
      && (forall i :: 0 <= i < |acts| && acts[i] == Send ==> exists j :: 0 <= j < i && acts[j] == Create)
  {
    var acts := Run(NoClient, creds).1;
    forall i, j | 0 <= i < j < |acts| && acts[i] == Create
      ensures acts[j] == Send
    {
      RunActionAt(creds, i);
      RunActionAt(creds, j);
      assert creds[i].Configured();
    }
    forall i | 0 <= i < |acts| && acts[i] == Send
      ensures exists j :: 0 <= j < i && acts[j] == Create
    {
      RunActionAt(creds, i);
      var first := FirstConfigured(creds, i);
      RunActionAt(creds, first);
    }
  }

  /** The earliest cycle before the i-th that saw usable credentials. */
  lemma {:induction false} FirstConfiguredExists(creds: seq<Credentials>, i: nat)
    requires i <= |creds| && ConfiguredBefore(creds, i)
    ensures exists f :: 0 <= f < i && creds[f].Configured() && !ConfiguredBefore(creds, f)
  {
    var j :| 0 <= j < i && creds[j].Configured();
    if ConfiguredBefore(creds, j) {
      FirstConfiguredExists(creds, j);
    }
  }

  ghost function FirstConfigured(creds: seq<Credentials>, i: nat): (f: nat)
    requires i <= |creds| && ConfiguredBefore(creds, i)
    ensures f < i && creds[f].Configured() && !ConfiguredBefore(creds, f)
  {
    FirstConfiguredExists(creds, i);
    var f :| 0 <= f < i && creds[f].Configured() && !ConfiguredBefore(creds, f); f
  }

  /** Once a client exists, every later cycle sends and the client keeps its original credentials. */
  lemma {:induction false} RunWithClient(c: Credentials, creds: seq<Credentials>)
    ensures Run(Client(c), creds).0 == Client(c)
    ensures forall i :: 0 <= i < |creds| ==> Run(Client(c), creds).1[i] == Send
    decreases |creds|
  {
    if creds != [] {
      RunWithClient(c, creds[..|creds| - 1]);
    }
  }
}
