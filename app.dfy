/**
 * The heating scheduler's module-level state (app.js:5-12) and the operations
 * that update it: the discovery pass of getConfig (heating index, zone
 * pruning, schedule compilation) and the per-minute tick of doSchedule.
 */
module App {
  import opened Types
  import opened Forest
  import opened HeatingIndex
  import opened ZonePruning
  import opened ScheduleCompiler
  import opened PollScheduler

  /** Ghost helpers for the cleanup loops: the table with some days or devices still to visit. */
  ghost function CleanDayExcept(s: DayMap, pending: set<DeviceId>): DayMap
  {
    map d | d in s && (d in pending || s[d] != map[]) :: s[d]
  }

  ghost function CleanExcept(t: Table, todo: set<Day>): Table
  {
    map day | day in t && (day in todo || CleanDay(t[day]) != map[]) ::
      if day in todo then t[day] else CleanDay(t[day])
  }

  lemma CleanDayStep(s: DayMap, pending: set<DeviceId>, d: DeviceId)
    requires d in pending && pending <= s.Keys
    ensures var cur := CleanDayExcept(s, pending);
      (if cur[d] == map[] then cur - {d} else cur) == CleanDayExcept(s, pending - {d})
  {
  }

  lemma CleanDayDone(s: DayMap)
    ensures CleanDayExcept(s, {}) == CleanDay(s)
  {
  }

  lemma CleanStep(t: Table, todo: set<Day>, day: Day)
    requires day in todo && todo <= t.Keys
    ensures var cur := CleanExcept(t, todo)[day := CleanDay(t[day])];
      (if CleanDay(t[day]) == map[] then cur - {day} else cur) == CleanExcept(t, todo - {day})
  {
  }

  lemma CleanDayStart(s: DayMap)
    ensures CleanDayExcept(s, s.Keys) == s
  {
  }

  lemma CleanStart(t: Table)
    ensures CleanExcept(t, t.Keys) == t
  {
  }

  lemma CleanDone(t: Table)
    ensures CleanExcept(t, {}) == Clean(t)
  {
  }

  /**
   * Lines 179-192 for one device: fill its hour maps from the dayparts, in
   * order. `ok` is false when line 186 raises.
   */
  method ExpandDayparts(s0: DayMap, deviceId: DeviceId, dayparts: seq<Daypart>) returns (s: DayMap, ok: bool)
    requires deviceId in s0
    ensures SetDayparts(s0, deviceId, dayparts) == if ok then Some(s) else None
  {
    s := s0;
    var k := 0;
    while k < |dayparts|
      invariant 0 <= k <= |dayparts|
      invariant deviceId in s
      invariant SetDayparts(s, deviceId, dayparts[k..]) == SetDayparts(s0, deviceId, dayparts)
    {
      var dayplan := dayparts[k];
      assert dayparts[k..][0] == dayplan && dayparts[k..][1..] == dayparts[k + 1..];
      ghost var sk := s;
      if dayplan.hour.Some? {
        var h, m := dayplan.hour.value, dayplan.minute;
        var hours := s[deviceId];
        if Decimal(h) !in s {
          hours := hours[h := map[]];
        }
        if h !in hours {
          // TypeError: the hour map is undefined
          return s, false;
        }
        var minutes := hours[h];
        if m !in minutes {
          minutes := minutes[m := 0];
        }
        minutes := minutes[m := dayplan.temperature];
        assert hours[h := minutes] == sk[deviceId][h := minutes];
        s := s[deviceId := hours[h := minutes]];
        assert minutes == (if Decimal(h) !in sk then map[m := dayplan.temperature] else sk[deviceId][h][m := dayplan.temperature]);
        assert SetDaypart(sk, deviceId, dayplan) == Some(s);
      }
      k := k + 1;
    }
    ok := true;
  }

  /** Lines 172-193 for one day: reset each device's hours, then fill them. */
  method ExpandDevices(s0: DayMap, devs: seq<DeviceId>, dayparts: seq<Daypart>) returns (s: DayMap, ok: bool)
    ensures SetDevices(s0, devs, dayparts) == if ok then Some(s) else None
  {
    s := s0;
    var j := 0;
    while j < |devs|
      invariant 0 <= j <= |devs|
      invariant SetDevices(s, devs[j..], dayparts) == SetDevices(s0, devs, dayparts)
    {
      var deviceId := devs[j];
      assert devs[j..][0] == deviceId && devs[j..][1..] == devs[j + 1..];
      s := s[deviceId := map[]];
      s, ok := ExpandDayparts(s, deviceId, dayparts);
      if !ok {
        return;
      }
      j := j + 1;
    }
    ok := true;
  }

  lemma AppendAssoc(a: seq<ZoneId>, b: seq<ZoneId>, c: seq<ZoneId>, d: seq<ZoneId>)
    ensures a + b + c + d == a + (b + (c + d))
    ensures a + b + c == a + (b + c)
  {
  }

  class HeatingSchedule {
    var config: Config
    var heatingZoneIds: seq<ZoneId>
    var zoneDevices: map<ZoneId, seq<DeviceId>>
    var schedule: Table
    var zones: seq<Zone>
    var devices: seq<Device>
    var lastUpdate: Option<int>
    /** Every updateTemperature call so far, in order. */
    var sent: seq<(DeviceId, int)>

    /** The initial values of the globals, with the configuration read from the settings store. */
    constructor (stored: Config)
      ensures config == stored && heatingZoneIds == [] && zoneDevices == map[] && schedule == map[]
      ensures zones == [] && devices == [] && lastUpdate == None && sent == []
    {
      config := stored;
      heatingZoneIds := [];
      zoneDevices := map[];
      schedule := map[];
      zones := [];
      devices := [];
      lastUpdate := None;
      sent := [];
    }

    /** addToZone: mark the zone as a heating zone and push the device onto its list. */
    method AddToZone(zoneId: ZoneId, deviceId: DeviceId)
      modifies this`heatingZoneIds, this`zoneDevices
      ensures heatingZoneIds == old(heatingZoneIds) + [zoneId]
      ensures zoneDevices == Register(old(zoneDevices), [zoneId], deviceId)
    {
      heatingZoneIds := heatingZoneIds + [zoneId];
      if zoneId !in zoneDevices {
        zoneDevices := zoneDevices[zoneId := []];
      }
      zoneDevices := zoneDevices[zoneId := zoneDevices[zoneId] + [deviceId]];
    }

    /** addDeviceToZone: register the device under the zone, then under the zones up its parent chain. */
    method AddDeviceToZone(zoneId: ZoneId, deviceId: DeviceId, parentId: Option<ZoneId>)
      requires WellFormed(zones)
      modifies this`heatingZoneIds, this`zoneDevices
      ensures heatingZoneIds == old(heatingZoneIds) + [zoneId] + Walk(zones, parentId, zones)
      ensures zoneDevices == Register(old(zoneDevices), [zoneId] + Walk(zones, parentId, zones), deviceId)
      decreases Rank(zones, parentId), 1
    {
      AddToZone(zoneId, deviceId);
      AddDeviceToParentZones(parentId, deviceId, zones);
      RegisterConcat(old(zoneDevices), [zoneId], Walk(zones, parentId, zones), deviceId);
    }

    /**
     * addDeviceToParentZones: search the forest `parentZones` (children first)
     * for the zone whose id is `parentId` and register the device from there.
     */
    method AddDeviceToParentZones(parentId: Option<ZoneId>, deviceId: DeviceId, parentZones: seq<Zone>)
      requires WellFormed(zones) && Within(zones, parentZones)
      modifies this`heatingZoneIds, this`zoneDevices
      ensures heatingZoneIds == old(heatingZoneIds) + Walk(zones, parentId, parentZones)
      ensures zoneDevices == Register(old(zoneDevices), Walk(zones, parentId, parentZones), deviceId)
      decreases Rank(zones, parentId), 0, parentZones
    {
      if Truthy(parentId) {
        var i := 0;
        while i < |parentZones|
          invariant 0 <= i <= |parentZones|
          invariant Within(zones, parentZones[i..])
          invariant heatingZoneIds + Walk(zones, parentId, parentZones[i..])
                    == old(heatingZoneIds) + Walk(zones, parentId, parentZones)
          invariant Register(zoneDevices, Walk(zones, parentId, parentZones[i..]), deviceId)
                    == Register(old(zoneDevices), Walk(zones, parentId, parentZones), deviceId)
        {
          WalkUnfold(zones, parentId, parentZones, i);
          ghost var hz0, zd0 := heatingZoneIds, zoneDevices;
          ghost var here, rest := WalkAt(zones, parentId, parentZones[i]), Walk(zones, parentId, parentZones[i + 1..]);
          AddDeviceFromZone(parentId, deviceId, parentZones[i]);
          AppendAssoc(hz0, here, rest, []);
          RegisterConcat(zd0, here, rest, deviceId);
          i := i + 1;
        }
      }
    }

    /**
     * The body of the loop in addDeviceToParentZones for one zone: search its
     * children, then register the device from the zone when its id is `parentId`.
     */
    method AddDeviceFromZone(parentId: Option<ZoneId>, deviceId: DeviceId, zone: Zone)
      requires WellFormed(zones) && zone in Flat(zones) && Truthy(parentId)
      modifies this`heatingZoneIds, this`zoneDevices
      ensures heatingZoneIds == old(heatingZoneIds) + WalkAt(zones, parentId, zone)
      ensures zoneDevices == Register(old(zoneDevices), WalkAt(zones, parentId, zone), deviceId)
      decreases Rank(zones, parentId), 0, zone
    {
      ChildrenWithin(zones, zone);
      ghost var below := if zone.children != [] then Walk(zones, parentId, zone.children) else [];
      if zone.children != [] {
        AddDeviceToParentZones(parentId, deviceId, zone.children);
      }
      ghost var hz1, zd1 := heatingZoneIds, zoneDevices;
      assert hz1 == old(heatingZoneIds) + below && zd1 == Register(old(zoneDevices), below, deviceId);
      if zone.id == parentId.value {
        RankStep(zones, zone);
        ghost var up := Walk(zones, zone.parent, zones);
        assert WalkAt(zones, parentId, zone) == below + ([zone.id] + up);
        AddDeviceToZone(zone.id, deviceId, zone.parent);
        AppendAssoc(old(heatingZoneIds), below, [zone.id], up);
        RegisterConcat(old(zoneDevices), below, [zone.id] + up, deviceId);
      } else {
        assert WalkAt(zones, parentId, zone) == below;
      }
    }

    /** addHeatingDevices: register every heating-capable device, in device order. */
    method AddHeatingDevices()
      requires WellFormed(zones)
      modifies this`heatingZoneIds, this`zoneDevices
      ensures Index(zoneDevices, heatingZoneIds)
              == IndexDevices(zones, Index(old(zoneDevices), old(heatingZoneIds)), devices)
    {
      var i := 0;
      while i < |devices|
        invariant 0 <= i <= |devices|
        invariant IndexDevices(zones, Index(zoneDevices, heatingZoneIds), devices[i..])
                  == IndexDevices(zones, Index(old(zoneDevices), old(heatingZoneIds)), devices)
      {
        var device := devices[i];
        assert devices[i..][0] == device && devices[i..][1..] == devices[i + 1..];
        ghost var hz0 := heatingZoneIds;
        if IsHeating(device) {
          AddDeviceToZone(device.zone.id, device.id, device.zone.parent);
          assert heatingZoneIds == hz0 + Chain(zones, device);
        }
        i := i + 1;
      }
    }

    /**
     * addHeatingZones: prune the zones without heating devices, then turn the
     * root's child list into an array. The zone list holds the single root
     * zone; when the root itself is pruned, line 322 reads `children` of
     * undefined and `ok` is false.
     */
    method AddHeatingZones() returns (ok: bool)
      requires |zones| == 1
      modifies this`zones
      ensures ok <==> Kept(old(zones)[0], heatingZoneIds)
      ensures zones == Prune(old(zones), heatingZoneIds)
      ensures ok ==> |zones| == 1
    {
      zones := PruneZones(zones, heatingZoneIds);
      if zones == [] {
        return false;
      }
      var children := ChildrenToArray(zones[0]);
      zones := [zones[0].(children := children)];
      ok := true;
    }

    /** Lines 159-196 for one zone: expand its enabled plan for each of its devices. */
    method ExpandZone(z: Zone) returns (ok: bool)
      modifies this`schedule
      ensures ScheduleCompiler.ExpandZone(old(schedule), z, config, zoneDevices) == if ok then Some(schedule) else None
    {
      ok := true;
      if !(z.id in config.schedule && z.id in zoneDevices) || !config.schedule[z.id].enabled {
        return;
      }
      var plan := config.schedule[z.id].plan;
      var devs := zoneDevices[z.id];
      var p := 0;
      while p < |plan|
        invariant 0 <= p <= |plan|
        invariant ExpandPlan(schedule, plan[p..], devs) == ExpandPlan(old(schedule), plan, devs)
      {
        var day, dayparts := plan[p].0, plan[p].1;
        assert plan[p..][0] == plan[p] && plan[p..][1..] == plan[p + 1..];
        ghost var t := schedule;
        if day !in schedule {
          schedule := schedule[day := map[]];
        }
        var s: DayMap := schedule[day];
        s, ok := ExpandDevices(s, devs, dayparts);
        if !ok {
          return;
        }
        schedule := schedule[day := s];
        assert schedule == t[day := s];
        p := p + 1;
      }
    }

    /** The cleanup of lines 203-215: delete devices without hours, then days without devices. */
    method Cleanup()
      modifies this`schedule
      ensures schedule == Clean(old(schedule))
    {
      ghost var t0 := schedule;
      var todo := schedule.Keys;
      CleanStart(t0);
      while todo != {}
        invariant todo <= t0.Keys
        invariant schedule == CleanExcept(t0, todo)
        decreases todo
      {
        var day :| day in todo;
        var devices := schedule[day];
        assert devices == t0[day];
        var pending := devices.Keys;
        CleanDayStart(t0[day]);
        while pending != {}
          invariant pending <= t0[day].Keys
          invariant day in todo && schedule == CleanExcept(t0, todo)
          invariant devices == CleanDayExcept(t0[day], pending)
          decreases pending
        {
          var deviceId :| deviceId in pending;
          CleanDayStep(t0[day], pending, deviceId);
          if devices[deviceId] == map[] {
            devices := devices - {deviceId};
          }
          pending := pending - {deviceId};
        }
        CleanDayDone(t0[day]);
        CleanStep(t0, todo, day);
        ghost var cur := schedule;
        schedule := schedule[day := devices];
        assert schedule == CleanExcept(t0, todo)[day := CleanDay(t0[day])];
        if devices == map[] {
          schedule := schedule - {day};
        }
        todo := todo - {day};
      }
      CleanDone(t0);
    }

    /**
     * prepareScheduledDevices: for each zone, expand its schedule, compile its
     * children, then clean up. `ok` is false when the expansion raised.
     */
    method PrepareScheduledDevices(zs: seq<Zone>) returns (ok: bool)
      modifies this`schedule
      ensures Compile(old(schedule), zs, config, zoneDevices) == if ok then Some(schedule) else None
      decreases zs
    {
      var i := 0;
      while i < |zs|
        invariant 0 <= i <= |zs|
        invariant Compile(schedule, zs[i..], config, zoneDevices) == Compile(old(schedule), zs, config, zoneDevices)
      {
        var zone := zs[i];
        assert zs[i..][0] == zone && zs[i..][1..] == zs[i + 1..];
        ok := ExpandZone(zone);
        if !ok {
          return;
        }
        if zone.children != [] {
          ok := PrepareScheduledDevices(zone.children);
          if !ok {
            return;
          }
        }
        Cleanup();
        i := i + 1;
      }
      ok := true;
    }

    /**
     * The callback chain of getConfig (lines 51-77) once both queries have
     * answered: store the zone tree and the devices, rebuild the heating
     * index on top of the previous one, prune, compile, and stamp the time.
     * `ok` is false when a TypeError ended the chain.
     */
    method Refresh(root: Zone, devs: seq<Device>, now: int) returns (ok: bool)
      requires WellFormed([root])
      modifies this`zones, this`devices, this`heatingZoneIds, this`zoneDevices, this`schedule, this`lastUpdate
      ensures devices == devs
      ensures Index(zoneDevices, heatingZoneIds)
              == IndexDevices([root], Index(old(zoneDevices), old(heatingZoneIds)), devs)
      ensures zones == Prune([root], heatingZoneIds)
      ensures Compile(old(schedule), zones, config, zoneDevices) == if ok then Some(schedule) else None
      ensures lastUpdate == if ok then Some(now) else old(lastUpdate)
    {
      zones := [root];
      devices := devs;
      AddHeatingDevices();
      ok := AddHeatingZones();
      if !ok {
        assert false;
      }
      ok := PrepareScheduledDevices(zones);
      if ok {
        lastUpdate := Some(now);
      }
    }

    /**
     * doSchedule (lines 82-131) at a given time. When the configuration
     * changed or is stale it stores the live one and starts a refresh;
     * `discovered` is the answer of the zone and device queries, or None when
     * it has not arrived. A completed refresh runs doSchedule again, which
     * then finds nothing to refresh. Otherwise the commands due at this
     * minute are issued; `issued` is what this call sent.
     */
    method DoSchedule(live: Config, now: int, weekday: int, hour: int, minute: int,
                      discovered: Option<(Zone, seq<Device>)>)
      returns (issued: seq<(DeviceId, int)>)
      requires 0 <= weekday < 7
      requires discovered.Some? ==> WellFormed([discovered.value.0])
      modifies this
      ensures sent == old(sent) + issued
      ensures !old(NeedsRefresh(live, config, now, lastUpdate)) ==>
                && config == old(config) && schedule == old(schedule) && lastUpdate == old(lastUpdate)
                && zones == old(zones) && heatingZoneIds == old(heatingZoneIds) && zoneDevices == old(zoneDevices)
                && devices == old(devices)
                && IsDueList(issued, schedule, WeekDay(weekday), hour, minute)
      ensures old(NeedsRefresh(live, config, now, lastUpdate)) ==> config == live
      ensures old(NeedsRefresh(live, config, now, lastUpdate)) && discovered.Some? ==>
                && devices == discovered.value.1
                && Index(zoneDevices, heatingZoneIds)
                   == IndexDevices([discovered.value.0], Index(old(zoneDevices), old(heatingZoneIds)), discovered.value.1)
                && zones == Prune([discovered.value.0], heatingZoneIds)
                && (Compile(old(schedule), zones, live, zoneDevices).Some? ==>
                      && schedule == Compile(old(schedule), zones, live, zoneDevices).value
                      && lastUpdate == Some(now)
                      && IsDueList(issued, schedule, WeekDay(weekday), hour, minute))
                && (Compile(old(schedule), zones, live, zoneDevices).None? ==> issued == [] && lastUpdate == old(lastUpdate))
      ensures old(NeedsRefresh(live, config, now, lastUpdate)) && discovered.None? ==>
                && issued == [] && schedule == old(schedule) && lastUpdate == old(lastUpdate)
                && zones == old(zones) && devices == old(devices)
                && heatingZoneIds == old(heatingZoneIds) && zoneDevices == old(zoneDevices)
      ensures issued != [] ==> IsDueList(issued, schedule, WeekDay(weekday), hour, minute)
      decreases if discovered.Some? then 1 else 0
    {
      if NeedsRefresh(live, config, now, lastUpdate) {
        config := live;
        issued := [];
        if discovered.Some? {
          var ok := Refresh(discovered.value.0, discovered.value.1, now);
          if ok {
            issued := DoSchedule(live, now, weekday, hour, minute, None);
          }
        }
        return;
      }
      issued := DueCommands(schedule, WeekDay(weekday), hour, minute);
      sent := sent + issued;
    }
  }
}
