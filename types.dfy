/**
 * The values the heating scheduler works on: the zone hierarchy and device list
 * returned by the device-management API, the configuration written by the
 * settings page, and the compiled schedule table.
 */
module Types {

  datatype Option<+T> = None | Some(value: T)

  type ZoneId = string
  type DeviceId = string
  /** A weekday name as used in the configuration ("su", "mo", ...). */
  type Day = string

  /** JavaScript truthiness of a zone reference: null, undefined and "" are falsy. */
  predicate Truthy(p: Option<ZoneId>)
  {
    p.Some? && p.value != ""
  }

  /**
   * A zone of the hierarchy. `children` lists the child zones in the order in
   * which the zone query enumerates them (the for-in order of the child map).
   */
  datatype Zone = Zone(id: ZoneId, parent: Option<ZoneId>, index: int, children: seq<Zone>)

  /** The `{id, parent}` reference a device carries to its containing zone. */
  datatype ZoneRef = ZoneRef(id: ZoneId, parent: Option<ZoneId>)

  datatype Device = Device(id: DeviceId, zone: ZoneRef, capabilities: set<string>)

  const TargetTemperature: string := "target_temperature"

  /** A device is heating-capable when it has the target-temperature capability. */
  predicate IsHeating(d: Device)
  {
    TargetTemperature in d.capabilities
  }

  /** One named time slot of a day plan; a slot without an hour is unset. */
  datatype Daypart = Daypart(hour: Option<int>, minute: int, temperature: int)

  /** A zone's schedule entry: the plan maps a weekday to its dayparts, in for-in order. */
  datatype ZoneSchedule = ZoneSchedule(enabled: bool, plan: seq<(Day, seq<Daypart>)>)

  /** The stored configuration; `updated` is None when null or undefined. */
  datatype Config = Config(updated: Option<int>, schedule: map<ZoneId, ZoneSchedule>)

  /** hour -> minute -> temperature */
  type HourMap = map<int, map<int, int>>
  /** device -> hours */
  type DayMap = map<DeviceId, HourMap>
  /** weekday -> devices: the compiled schedule table */
  type Table = map<Day, DayMap>
}
