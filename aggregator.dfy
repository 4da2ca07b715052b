/**
 * The device handlers of critter_api.py: `devices`, which joins the Particle registry's
 * device list with the `critter_devices` table, and `device`, which reads one record.
 * The HTTP call and the table are inputs.
 */
module Aggregator {
  import opened Values
  import opened Seqs
  import Strings

  /** Only registry devices whose name starts with this prefix belong to the system. */
  const OwnerPrefix: string := "critter"

  /** One entry of the registry's device list. */
  datatype RegistryDevice = RegistryDevice(id: string, name: string, connected: bool)

  /** The registry call: it fails (network, status, body) or yields the caller's devices. */
  datatype RegistryReply = Unreachable | Devices(devices: seq<RegistryDevice>)

  /**
   * The `critter_devices` table keyed by `device_id`. A `get_item` for an id in
   * `unavailable` raises (the store failing for that request).
   */
  datatype DeviceTable = DeviceTable(records: map<string, Item>, unavailable: set<string>)

  /** What `get_item` gives: a response with `Item`, one without, or an exception. */
  datatype Lookup = Found(item: Item) | Absent | Unavailable

  function GetItem(table: DeviceTable, id: string): (r: Lookup)
    ensures r == Unavailable <==> id in table.unavailable
    ensures r == Absent <==> id !in table.unavailable && id !in table.records
    ensures r.Found? ==> id in table.records && r.item == table.records[id]
  {
    if id in table.unavailable then Unavailable
    else if id in table.records then Found(table.records[id])
    else Absent
  }

  predicate Owned(d: RegistryDevice)
  {
    Strings.StartsWith(d.name, OwnerPrefix)
  }

  function ProvisionedIn(table: DeviceTable): RegistryDevice -> bool
  {
    (d: RegistryDevice) => d.id in table.records
  }

  /** The registry devices `devices` answers for: owned, then with a record, in registry order. */
  function Survivors(reg: seq<RegistryDevice>, table: DeviceTable): (r: seq<RegistryDevice>)
    ensures forall i :: 0 <= i < |r| ==> r[i].id in table.records
  {
    Filter(ProvisionedIn(table), Filter(Owned, reg))
  }

  /** A registry device is kept exactly when it is owned and has a record. */
  lemma SurvivorsMembers(reg: seq<RegistryDevice>, table: DeviceTable)
    ensures forall i :: 0 <= i < |Survivors(reg, table)| ==>
      var d := Survivors(reg, table)[i];
      d in reg && Owned(d) && d.id in table.records
    ensures forall i :: 0 <= i < |reg| && Owned(reg[i]) && reg[i].id in table.records ==>
      reg[i] in Survivors(reg, table)
  {
    var owned := Filter(Owned, reg);
    var r := Survivors(reg, table);
    forall i | 0 <= i < |reg| && Owned(reg[i]) && reg[i].id in table.records ensures reg[i] in r {
      var j :| 0 <= j < |owned| && owned[j] == reg[i];
      assert ProvisionedIn(table)(owned[j]);
    }
  }

  /** A record as `devices` returns it: voltage normalised, `online` set from the registry. */
  function Unified(item: Item, connected: bool): (r: Item)
    ensures r.Keys == item.Keys + {Online}
    ensures r[Online] == Bool(connected)
    ensures forall k :: k in item && k != Voltage && k != Online ==> r[k] == item[k]
    ensures Voltage in item ==> r[Voltage] == Float(item[Voltage])
  {
    NormalizeVoltage(item)[Online := Bool(connected)]
  }

  function Views(devs: seq<RegistryDevice>, table: DeviceTable): seq<Item>
    requires forall i :: 0 <= i < |devs| ==> devs[i].id in table.records
  {
    seq(|devs|, i requires 0 <= i < |devs| => Unified(table.records[devs[i].id], devs[i].connected))
  }

  /** Some owned device's `get_item` raises; the single `try` then turns the whole list into a 500. */
  predicate StoreFails(reg: seq<RegistryDevice>, table: DeviceTable)
  {
    exists i :: 0 <= i < |reg| && Owned(reg[i]) && reg[i].id in table.unavailable
  }

  /** What `devices` answers, stated over the whole registry list at once. */
  function DeviceListing(reply: RegistryReply, table: DeviceTable): Outcome<seq<Item>>
  {
    match reply
    case Unreachable => ServerError
    case Devices(reg) =>
      if StoreFails(reg, table) then ServerError else Ok(Views(Survivors(reg, table), table))
  }

  lemma SurvivorsSnoc(reg: seq<RegistryDevice>, d: RegistryDevice, table: DeviceTable)
    ensures Survivors(reg + [d], table)
         == Survivors(reg, table) + (if Owned(d) && d.id in table.records then [d] else [])
  {
    FilterSnoc(Owned, reg, d);
    if Owned(d) {
      FilterSnoc(ProvisionedIn(table), Filter(Owned, reg), d);
      assert ProvisionedIn(table)(d) <==> d.id in table.records;
    } else {
      assert Filter(Owned, reg + [d]) == Filter(Owned, reg);
    }
  }

  lemma StoreFailsSnoc(reg: seq<RegistryDevice>, d: RegistryDevice, table: DeviceTable)
    ensures StoreFails(reg + [d], table) <==> StoreFails(reg, table) || (Owned(d) && d.id in table.unavailable)
  {
    var s := reg + [d];
    assert s[|reg|] == d;
    if StoreFails(s, table) && !(Owned(d) && d.id in table.unavailable) {
      var i :| 0 <= i < |s| && Owned(s[i]) && s[i].id in table.unavailable;
      assert i < |reg| && s[i] == reg[i];
    }
    if StoreFails(reg, table) {
      var i :| 0 <= i < |reg| && Owned(reg[i]) && reg[i].id in table.unavailable;
      assert s[i] == reg[i];
    }
  }

  /** One more registry device extends the answer by its view exactly when it is kept. */
  lemma ViewsStep(reg: seq<RegistryDevice>, d: RegistryDevice, table: DeviceTable)
    ensures Views(Survivors(reg + [d], table), table)
         == Views(Survivors(reg, table), table)
            + (if Owned(d) && d.id in table.records then [Unified(table.records[d.id], d.connected)] else [])
  {
    SurvivorsSnoc(reg, d, table);
    if Owned(d) && d.id in table.records {
      var before := Survivors(reg, table);
      assert Views(before + [d], table) == Views(before, table) + [Unified(table.records[d.id], d.connected)];
    }
  }

  /** The `devices` handler from the registry reply onwards. */
  method ListDevices(reply: RegistryReply, table: DeviceTable) returns (r: Outcome<seq<Item>>)
    ensures r == DeviceListing(reply, table)
  {
    if reply.Unreachable? {
      return ServerError;
    }
    var reg := reply.devices;
    var devices: seq<Item> := [];
    var i := 0;
    while i < |reg|
      invariant 0 <= i <= |reg|
      invariant !StoreFails(reg[..i], table)
      invariant devices == Views(Survivors(reg[..i], table), table)
    {
      var d := reg[i];
      assert reg[..i + 1] == reg[..i] + [d];
      ViewsStep(reg[..i], d, table);
      StoreFailsSnoc(reg[..i], d, table);
      if !Owned(d) {
        i := i + 1;
        continue;
      }
      var record := GetItem(table, d.id);
      if record.Unavailable? {
        assert StoreFails(reg, table) by {
          assert Owned(reg[i]) && reg[i].id in table.unavailable;
        }
        return ServerError;
      }
      if record.Absent? {
        i := i + 1;
        continue;
      }
      var device := record.item;
      if Voltage in device {
        device := device[Voltage := Normalize(device[Voltage])];
      }
      assert device == NormalizeVoltage(record.item);
      device := device[Online := Bool(d.connected)];
      assert device == Unified(table.records[d.id], d.connected);
      devices := devices + [device];
      i := i + 1;
    }
    assert reg[..i] == reg;
    r := Ok(devices);
  }

  /** The `device` handler: one record, voltage normalised, no `online` field added. */
  method GetDevice(table: DeviceTable, id: string) returns (r: Outcome<Item>)
    ensures r == ServerError <==> id in table.unavailable
    ensures r == NotFound <==> id !in table.unavailable && id !in table.records
    ensures r.Ok? ==> id in table.records && r.value == NormalizeVoltage(table.records[id])
    ensures r.Ok? ==> r.value.Keys == table.records[id].Keys
  {
    var record := GetItem(table, id);
    if record.Unavailable? {
      return ServerError;
    }
    if record.Absent? {
      return NotFound;
    }
    var device := record.item;
    if Voltage in device {
      device := device[Voltage := Normalize(device[Voltage])];
    }
    return Ok(device);
  }

  /**
   * When no owned device's lookup fails, `devices` answers with one entry per owned,
   * provisioned registry device, in registry order, each built from its record and its
   * own `connected` flag; no other registry device appears.
   */
  lemma ListingOutput(reg: seq<RegistryDevice>, table: DeviceTable)
    requires !StoreFails(reg, table)
    ensures DeviceListing(Devices(reg), table).Ok?
    ensures var out := DeviceListing(Devices(reg), table).value;
      && |out| == |Survivors(reg, table)| <= |reg|
      && (forall j :: 0 <= j < |out| ==>
            var d := Survivors(reg, table)[j];
            && d in reg && Owned(d) && d.id in table.records
            && out[j] == Unified(table.records[d.id], d.connected)
            && out[j][Online] == Bool(d.connected))
  {
    SurvivorsMembers(reg, table);
  }

  /** The kept devices are in registry order: a subsequence of the owned registry devices. */
  lemma SurvivorsKeepRegistryOrder(reg: seq<RegistryDevice>, table: DeviceTable)
    ensures IsSubsequence(Survivors(reg, table), Filter(Owned, reg))
  {
    FilterIsSubsequence(ProvisionedIn(table), Filter(Owned, reg));
  }

  /** `devices` fails exactly when the registry fails or an owned device's lookup raises. */
  lemma ListingErrors(reply: RegistryReply, table: DeviceTable)
    ensures !DeviceListing(reply, table).NotFound?
    ensures DeviceListing(reply, table) == ServerError
        <==> reply.Unreachable? || StoreFails(reply.devices, table)
  {
  }

  /** Whether some owned device's lookup raises does not depend on the unowned devices. */
  lemma StoreFailsOwned(reg: seq<RegistryDevice>, table: DeviceTable)
    ensures StoreFails(Filter(Owned, reg), table) <==> StoreFails(reg, table)
  {
  }

  /** Devices without the prefix affect nothing: neither the list nor whether it fails. */
  lemma {:induction false} OwnershipFilterIrrelevant(reg: seq<RegistryDevice>, table: DeviceTable)
    ensures DeviceListing(Devices(reg), table) == DeviceListing(Devices(Filter(Owned, reg)), table)
  {
    FilterIdempotent(Owned, reg);
    assert Survivors(Filter(Owned, reg), table) == Survivors(reg, table);
    StoreFailsOwned(reg, table);
  }

  /** One provisioned critter device: its record comes back with a float voltage and `online`. */
  lemma FeederExample()
    ensures var reg := [RegistryDevice("d1", "critter-feeder", true)];
            var record := map["device_id" := Str("d1"), "name" := Str("critter-feeder"), Voltage := Num("3.7")];
            var table := DeviceTable(map["d1" := record], {});
            DeviceListing(Devices(reg), table)
              == Ok([map["device_id" := Str("d1"), "name" := Str("critter-feeder"),
                         Voltage := Float(Num("3.7")), Online := Bool(true)]])
  {
    var d := RegistryDevice("d1", "critter-feeder", true);
    var record := map["device_id" := Str("d1"), "name" := Str("critter-feeder"), Voltage := Num("3.7")];
    var table := DeviceTable(map["d1" := record], {});
    assert Owned(d) by { assert d.name[..|OwnerPrefix|] == OwnerPrefix; }
    assert Survivors([d], table) == [d] by { SurvivorsSnoc([], d, table); assert [] + [d] == [d]; }
    assert !StoreFails([d], table);
    var expected := map["device_id" := Str("d1"), "name" := Str("critter-feeder"),
                        Voltage := Float(Num("3.7")), Online := Bool(true)];
    assert NormalizeVoltage(record) == record[Voltage := Float(Num("3.7"))];
    assert Unified(record, true) == expected;
    assert Views([d], table) == [expected];
  }
}
