# sensorTag: a Dafny model of two BLE sensor pollers

The repository has two programs that bridge Bluetooth LE sensors to a telemetry service. Both keep
per-device credentials in a key-value store.

- `main.py` listens for advertisements of Xiaomi MJ_HT_V1 thermometers. It registers every device
  whose address contains the vendor text `4c:65:a8:dc` anywhere. It decodes the temperature, humidity and
  battery readings the devices broadcast as service data (AD type 0x16). It hands the decoded
  readings to one worker per device. The worker keeps the latest strictly positive readings and,
  once a telemetry client exists, publishes them.
- `sensorTag.py` scans for TI CC2650 SensorTags by their complete local name (AD type 9). It
  keeps one record per tag. It reads the sensors of each tag, zeroing the readings on a
  disconnect, and refreshes the tag's credentials from the store. A second thread walks the same
  records, creating a telemetry client per record or sending through it.

The model has five modules:

- `Ble` (ble.dfy): advertisements and their scan-data entries.
- `Telemetry` (telemetry.dfy): the store and the credential lookup. It also holds the
  client state machine that both programs run: without a client, create one unless both
  credentials are 0; with a client, send.
- `MjHt` (mjht.dfy): the MJ_HT_V1 decoder. It comes in three forms:
  - as the handler writes it, on hex text;
  - corrected;
  - the format table on bytes.
- `Beacon` (beacon.dfy): the `main.py` classes. `Registry` is the abstract state of the
  discovery handler. The `SensorControl` and `SensorAccess` classes are proved against functions
  over it.
- `SensorTag` (sensortag.dfy): the `sensorTag.py` classes. Each record is an object that both
  record lists point to, as in the program. `Row` is the value of one record, and the methods are
  proved against pure functions over rows.

## Model

| member | source | states |
|---|---|---|
| Telemetry.HSet | main.py:151 | writing one field of one key sets that field and leaves every other field of that key and every other key as it was |
| Telemetry.HMSetAll | cgi-bin/result.py:31-32 | the web form's writes replace the fields they name under each key and keep all other fields |
| Telemetry.Lookup | main.py:77-85 | the channel id and the write key are each the stored text, or 0 when the field is missing; not both are 0 exactly when at least one of the two fields is stored |
| Telemetry.Cycle | main.py:118-124 | one cycle sends iff a client exists; it creates a client iff there is none and the credentials are not both 0, and a created client is built from this cycle's credentials; an existing client is kept; afterwards a client exists iff one existed or the credentials are not both 0 |
| Telemetry.Run | main.py:118-124 | a run of cycles takes one action per cycle, and a run that ends without a client also started without one |
| Telemetry.RunLink | main.py:118-124 | starting without a client, a client exists after a run iff some cycle saw credentials that were not both 0 |
| Telemetry.RunActionAt | main.py:118-124 | cycle i sends iff an earlier cycle saw usable credentials; otherwise it creates the client iff its own credentials are usable; otherwise it waits |
| Telemetry.CreateOnceThenSend | main.py:118-124 | a client is created at most once; every cycle after the creation sends; every send comes after a creation, never in the same cycle |
| Telemetry.RunWithClient | main.py:118-124 | once a client exists every cycle sends, and the client keeps the credentials it was created with |
| MjHt.DiscriminatorText | main.py:207-215 | a rendered byte equals "04", "06", "0a" or "0d" exactly when it is that format byte, and never the upper-case forms |
| MjHt.ParseWordAt | main.py:209-210 | the text slices of bytes 17 and 16, parsed in base 16, give the little-endian 16-bit value byte17 * 256 + byte16 |
| MjHt.DecodeAsWritten | main.py:204-219 | the handler as written: data loss exactly for texts of at most 28 characters, and no match exactly for a longer text whose byte-13 text is none of the known formats |
| MjHt.Decode | main.py:204-219 | the corrected decoder: texts of at most 28 characters are data loss; no match exactly for an unknown format; readings are stored only from a text long enough for every field of its format |
| MjHt.DecodeHex | main.py:204-219 | decoding the hex text of any payload gives the format table on its bytes: at most 14 bytes is data loss; 0x04 and 0x06 give the temperature or the humidity from bytes 16-17; 0x0A gives the battery from byte 16; 0x0D gives both temperature and humidity; any other format is no match |
| MjHt.AbsorbPayload | main.py:204-219 | per format, one payload replaces exactly the readings it carries and keeps the others; a short payload or an unknown format changes nothing |
| MjHt.AsWrittenAgrees | main.py:204-219 | the handler as written and the corrected decoder agree on every text the corrected one accepts, on every unknown format, and on every text of at most 28 characters |
| MjHt.AsWrittenRaisesOnShortPayload | main.py:204-214 | a 15- or 16-byte payload of a known format passes the length guard, and base-16 parsing of its empty field raises |
| MjHt.AsWrittenReadsOneByte | main.py:209-212 | a 17-byte payload of format 0x04 or 0x06 stores byte 16 alone as the 16-bit reading |
| MjHt.AsWrittenHalfAppliesCombined | main.py:215-217 | an 18-byte payload of format 0x0D stores the temperature and then raises on the missing humidity field |
| MjHt.ShortTemperatureExample | main.py:209-210 | the 17-byte payload of thirteen zero bytes followed by 04 00 00 EB: as written it stores 0xEB as the temperature, while the format table drops it as data loss |
| Beacon.MergeOnlyStoresPositive | main.py:96-106 | d1, d2 and d3 change only to a strictly positive reading of temperature, humidity or battery; a positive reading is always stored; d4 and d5 never change |
| Beacon.Merge | main.py:102-105 | d4 and d5 are kept; a zero or negative temperature, humidity or battery reading keeps d1, d2 or d3; a slot that was positive stays positive |
| Beacon.MergeIdempotent | main.py:102-105 | merging the same sample twice gives what merging it once gives |
| Beacon.MergeSeriesLatest | main.py:102-105 | after a series of samples each slot holds the last strictly positive reading of its quantity, or its old value when there was none |
| Beacon.AbsorbEntriesNet | main.py:193-219 | handling a device's scan-data entries in order is applying their combined change once, a later reading overriding an earlier one |
| Beacon.AbsorbEntriesTwice | main.py:193-219 | handling the same scan data twice leaves the sample as handling it once |
| Beacon.AbsorbAll | main.py:193-219 | the scan-data loop decodes every service-data entry into the device's sample in order and ignores entries of every other AD type |
| Beacon.MergeAtKeys | main.py:176-180 | handing a sample to the workers of one address keeps the set of addresses and keeps them distinct |
| Beacon.MergeAtTwice | main.py:176-180 | handing the same sample twice to the workers of one address is handing it once |
| Beacon.Register | main.py:145-163 | registration keeps the registry well formed (distinct worker addresses, one sample per worker) and the address is registered afterwards |
| Beacon.Deliver | main.py:165-180 | storing a sample and handing it to the worker keeps the registry well formed |
| Beacon.Discover | main.py:183-221 | one discovery keeps the registry well formed |
| Beacon.Absorbed | main.py:191-221 | handling the scan data of a known device keeps the registry well formed |
| Beacon.RegisterEffect | main.py:145-163 | a known address changes nothing; a new one appends exactly one worker with zero readings after the old ones, stores an all-zero sample for it and writes rssi "0" for it; that one field is the only change to the store, so credentials stored earlier for the address are kept |
| Beacon.DeliverEffect | main.py:165-180 | only the sample of that address and the readings of workers with that address change; the workers and the store are otherwise kept |
| Beacon.DiscoverEffect | main.py:183-221 | one discovery adds a worker iff the address is new and contains the vendor text; it adds at most one; other workers and samples are untouched; an unknown address without the vendor text changes nothing; the store changes only for a new address with the vendor text, by its rssi field set to "0", and every other key and field is kept |
| Beacon.AbsorbedTwice | main.py:191-221 | handling the same advertisement of a known device twice is handling it once |
| Beacon.RedeliveryChangesNothing | main.py:183-221 | the same advertisement discovered twice leaves the state of discovering it once |
| Beacon.SensorAccess.constructor | main.py:34-53 | a new worker has zero readings and no client |
| Beacon.SensorAccess.SetData | main.py:96-106 | the worker's readings become the merge of the old readings with the sample |
| Beacon.SensorAccess.Step | main.py:118-124 | one cycle of the worker's loop: its client and action are those of the client state machine on the credentials stored for its address |
| Beacon.SensorAccess.Run | main.py:112-125 | the worker's loop over a series of store states follows the client state machine's run over the credentials looked up in each |
| Beacon.SensorControl.constructor | main.py:129-133 | the handler starts with no worker and no sample |
| Beacon.SensorControl.IsRegistered | main.py:135-144 | true iff some worker has this address |
| Beacon.SensorControl.RegisterAmbient | main.py:145-163 | returns true iff the address was unknown; the new state is Register of the old one; old workers are kept; a new worker is fresh and has no client |
| Beacon.SensorControl.SetData | main.py:165-180 | every worker with this address merges the sample and nothing else changes |
| Beacon.SensorControl.HandleDiscovery | main.py:183-221 | the new state is Discover of the old one, and the handler stays well formed |
| Beacon.SensorControl.Receive | main.py:191-221 | the new state is Absorbed of the old one; the worker list is not changed |
| Beacon.SensorControl.Update | main.py:209-221 | the new state is Deliver of the old one: the sample is stored and handed to the device's worker |
| SensorTag.Decimal | sensorTag.py:85 | the rssi is stored as non-empty decimal text, with a leading '-' exactly when it is negative and digits elsewhere |
| SensorTag.DecimalRoundTrip | sensorTag.py:85 | the text stored for an rssi denotes that rssi, so distinct values are stored as distinct texts |
| SensorTag.ScanEntry | sensorTag.py:66-86 | one scan-data entry appends at most one record and keeps the others; afterwards the address is held iff it was held before or the entry names a SensorTag |
| SensorTag.ScanAll | sensorTag.py:64-86 | a scan never removes a record |
| SensorTag.ScanAdFacts | sensorTag.py:65-86 | the entries of one advertisement keep the existing records and add at most one record. That record is the new zero record of this device and needs an entry with AD type 9 and the SensorTag name. Afterwards the address is held if such an entry exists, and addresses stay distinct |
| SensorTag.ScanAllKeeps | sensorTag.py:58-87 | a scan keeps every existing record in place and keeps addresses distinct, so an address reported twice gets one record |
| SensorTag.ScanAllSound | sensorTag.py:64-84 | every record a scan adds is the zero record, with the rssi, of an advertisement that carries the SensorTag name |
| SensorTag.ScanAllComplete | sensorTag.py:64-84 | after a scan every advertisement carrying the SensorTag name is held by some record |
| SensorTag.DisconnectZeroes | sensorTag.py:131-137 | a record whose read was cut off holds five zero readings, whatever it held before |
| SensorTag.RefreshedCredentials | sensorTag.py:150-161 | after a refresh each record's credentials are the stored ones; each is 0 exactly when the store lacks that field |
| SensorTag.RefreshedTwice | sensorTag.py:150-161 | refreshing twice from the same store is refreshing once |
| SensorTag.PassAction | sensorTag.py:35-43 | in one publisher pass a record is sent iff it has a client. It gets a client iff it had none and not both credentials are 0 |
| SensorTag.NextPassSends | sensorTag.py:31-43 | a record that got a client or was sent in one pass is sent in the next, through the same client |
| SensorTag.Iteration | sensorTag.py:167-171 | one iteration of the scanner thread after the web form's writes keeps every record in its place with its address, rssi and client, and may only add records; an iteration that begins with records adds none and leaves the store as the web form left it |
| SensorTag.Iterations | sensorTag.py:166-172 | a series of iterations never lowers the number of records |
| SensorTag.IterationsKeep | sensorTag.py:166-172 | after any series of iterations every record is still in its place with its address, rssi and client; only its readings and credentials may have changed |
| SensorTag.IterationsGrow | sensorTag.py:166-172 | a later iteration has at least as many records as an earlier one |
| SensorTag.ScanFlagsAt | sensorTag.py:167-168 | iteration i scans exactly when no record exists before it |
| SensorTag.ScanDiscipline | sensorTag.py:166-171 | the thread scans exactly while no record exists; once an iteration has not scanned no later one scans; a thread that starts with records never scans |
| SensorTag.ScanFinds | sensorTag.py:166-168 | an iteration that scans and sees an advertisement naming a SensorTag leaves at least one record |
| SensorTag.ScanFindsThenStops | sensorTag.py:166-171 | a scan that sees an advertisement naming a SensorTag is the last scan |
| SensorTag.Record.constructor | sensorTag.py:74-82 | a new record has zero readings, both credentials 0 and no client |
| SensorTag.SharedList.constructor | sensorTag.py:15 | the shared list starts empty |
| SensorTag.SensorControl.constructor | sensorTag.py:50-57 | the scanner starts with no record, over the empty shared list |
| SensorTag.SensorControl.IsRegistered | sensorTag.py:89-98 | true iff some record holds the text among its field values: as its address, channel id or write key |
| SensorTag.SensorControl.Append | sensorTag.py:74-86 | the new zero record is appended to both lists, and the tag's rssi is written to the store |
| SensorTag.SensorControl.Scan | sensorTag.py:58-87 | records and store after a scan are ScanAll of the old ones; old records are kept and new ones are fresh |
| SensorTag.SensorControl.ScanDevice | sensorTag.py:65-86 | the scan-data loop of one device: records and store are ScanAd of the old ones |
| SensorTag.SensorControl.Consider | sensorTag.py:66-86 | one scan-data entry: records and store are ScanEntry of the old ones; old records are kept |
| SensorTag.SensorControl.GetData | sensorTag.py:100-139 | each record's readings become what its read gave: d1 temperature, d2 humidity, d3 pressure, d4 battery, d5 light, or all 0 after a disconnect; no other field changes |
| SensorTag.SensorControl.GetWriteKey | sensorTag.py:140-162 | each shared record's credentials become the stored ones, 0 where missing; no other field changes |
| SensorTag.SensorControl.Iterate | sensorTag.py:167-171 | it scans iff no record exists yet; otherwise it reads every tag, then refreshes every tag's credentials, and keeps the record list |
| SensorTag.SensorControl.Run | sensorTag.py:164-172 | records and store after the loop are Iterations of the old ones, and the thread scans exactly in the iterations ScanFlags names: those that begin with no record |
| SensorTag.SensorControl.Step | sensorTag.py:166-171 | the web form's writes land in the store, then one iteration runs: records and store are Iteration of the old ones, and it scans iff no record existed |
| SensorTag.AmbientControl.constructor | sensorTag.py:21-22 | the publisher reads the shared list |
| SensorTag.AmbientControl.Pass | sensorTag.py:31-44 | one pass gives each record the client and the action of one cycle of the client state machine on that record's credentials |

## Left out

- Radio I/O is not modelled: the bluepy scanner, connecting to a tag, and enabling, reading and
  disabling its sensors. A scan is a list of advertisements. A read pass is a function from
  address to outcome: the five values, or a disconnect.
- Readings are integers. The `/10.0` float conversion of the decoder is not modelled; a raw value
  is positive iff the converted one is. The float values a SensorTag reports are not modelled
  either.
- The key-value store is a map from key to a field map. The byte-to-text decoding of its replies
  is not modelled.
- The telemetry HTTP client is an abstract value; a send is only the action `Send`.
- Threads, locks, events, `sleep`, `join` and `kill` are not modelled. The two `sensorTag.py`
  threads share the records; the model has no interleavings, and one `AmbientControl.Pass` is one
  iteration of the publisher's loop.
- Both `main` functions are not modelled: argument parsing, the HTTP/CGI server and the adapter
  reset after a scan exception.
- Logging to standard output is not modelled.
- `cgi-bin/result.py`: only its effect on the store is modelled, as `HMSetAll`. In
  `SensorControl.Run` those writes land before each iteration.
- Exceptions other than a disconnect while reading a SensorTag are not modelled; they would end
  the thread.
- A disconnect part-way through a read leaves the readings at 0 whatever was already read, so a
  read is modelled as all values or a disconnect.
- The undefined name `devicesaddr` in the discovery handler is modelled as the address of the
  discovered device.
- MjHt.DecodeAsWritten: takes value texts to be hex digits. The language's base-16 parser would also
  accept surrounding whitespace, a sign, a `0x` prefix or underscores, which rendered service data
  never contains.
- Beacon.SensorControl.HandleDiscovery: uses the corrected decoder `MjHt.Decode`. The handler as
  written is `MjHt.DecodeAsWritten`, and its divergences are listed under Findings.
- SensorTag.AmbientControl.Pass: requires the shared records to have distinct addresses. The
  scanner's invariant guarantees this, and the pass does not check it.

## Findings

| source | as written | input that shows it | evidently intended | confidence | as-written member | corrected member |
|---|---|---|---|---|---|---|
| main.py:204-217 | one guard, more than 28 hex characters, for every format; 0x04/0x06 read up to byte 17, 0x0A up to byte 16, 0x0D up to byte 19 | a 17-byte payload `00…00 04 00 00 EB` (format 0x04, byte 17 missing) stores 0xEB as the temperature; a 15- or 16-byte payload of a known format raises a ValueError; an 18-byte 0x0D payload stores the temperature and then raises | a payload too short for its format is dropped as data loss and nothing is stored | not executed | MjHt.AsWrittenReadsOneByte | MjHt.DecodeHex |
