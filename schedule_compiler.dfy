/**
 * The schedule compiler (app.js prepareScheduledDevices) as functions over
 * values: the table after expanding one daypart, one device, one day, one zone,
 * a whole forest, and the cleanup that runs after every zone. A result of
 * None stands for the TypeError the source raises at app.js:186.
 */
module ScheduleCompiler {
  import opened Types

  predicate AllDigits(s: string)
  {
    forall i :: 0 <= i < |s| ==> '0' <= s[i] <= '9'
  }

  /** A string JavaScript could produce as the property name of an integer. */
  predicate IsNumeral(s: string)
  {
    |s| > 0 && if s[0] == '-' then |s| > 1 && AllDigits(s[1..]) else AllDigits(s)
  }

  function Digits(n: nat): (r: string)
    ensures |r| > 0 && AllDigits(r)
    decreases n
  {
    var last := "0123456789"[n % 10];
    if n < 10 then [last] else Digits(n / 10) + [last]
  }

  /** The property name of an integer key: its decimal representation. */
  function Decimal(n: int): (r: string)
    ensures IsNumeral(r)
    ensures r[0] == '-' <==> n < 0
  {
    if n < 0 then "-" + Digits(-n) else Digits(n)
  }

  /**
   * Lines 181-191 for one device and one daypart. The test at line 182 asks
   * whether the day's device map has a key named like the hour; when it has
   * none the hour map is (re)created, and when it has one but the device has
   * no map for that hour, line 186 reads a property of undefined.
   */
  function SetDaypart(s: DayMap, d: DeviceId, dp: Daypart): (r: Option<DayMap>)
    requires d in s
    ensures r.Some? ==> r.value.Keys == s.Keys
    ensures r.Some? && dp.hour.Some? ==>
              && dp.hour.value in r.value[d] && dp.minute in r.value[d][dp.hour.value]
              && r.value[d][dp.hour.value][dp.minute] == dp.temperature
    ensures r.None? <==> dp.hour.Some? && Decimal(dp.hour.value) in s && dp.hour.value !in s[d]
    ensures r.Some? ==> forall e :: e in s && e != d ==> r.value[e] == s[e]
    ensures r.Some? && dp.hour.Some? ==>
              forall h :: h != dp.hour.value ==>
                (h in r.value[d] <==> h in s[d]) && (h in s[d] ==> r.value[d][h] == s[d][h])
    ensures dp.hour.Some? && Decimal(dp.hour.value) !in s ==>
              r == Some(s[d := s[d][dp.hour.value := map[dp.minute := dp.temperature]]])
    ensures dp.hour.None? ==> r == Some(s)
  {
    match dp.hour
    case None => Some(s)
    case Some(h) =>
      if Decimal(h) !in s then
        Some(s[d := s[d][h := map[dp.minute := dp.temperature]]])
      else if h in s[d] then
        Some(s[d := s[d][h := s[d][h][dp.minute := dp.temperature]]])
      else None
  }

  /** The daypart loop (lines 179-192) for one device, stopping at a TypeError. */
  function SetDayparts(s: DayMap, d: DeviceId, dps: seq<Daypart>): (r: Option<DayMap>)
    requires d in s
    ensures r.Some? ==> r.value.Keys == s.Keys
    decreases dps
  {
    if dps == [] then Some(s)
    else match SetDaypart(s, d, dps[0])
      case None => None
      case Some(s') => SetDayparts(s', d, dps[1..])
  }

  /** The device loop (lines 172-193): each device's hours are reset, then filled from the dayparts. */
  function SetDevices(s: DayMap, devs: seq<DeviceId>, dps: seq<Daypart>): Option<DayMap>
    decreases devs
  {
    if devs == [] then Some(s)
    else match SetDayparts(s[devs[0] := map[]], devs[0], dps)
      case None => None
      case Some(s') => SetDevices(s', devs[1..], dps)
  }

  /** The day loop (lines 164-194): the day's device map is created on first use. */
  function ExpandPlan(t: Table, plan: seq<(Day, seq<Daypart>)>, devs: seq<DeviceId>): Option<Table>
    decreases plan
  {
    if plan == [] then Some(t)
    else
      var day := plan[0].0;
      var s := if day in t then t[day] else map[];
      match SetDevices(s, devs, plan[0].1)
      case None => None
      case Some(s') => ExpandPlan(t[day := s'], plan[1..], devs)
  }

  /** The test at lines 159-162: an enabled schedule entry and at least a device list. */
  predicate Scheduled(z: Zone, cfg: Config, z2d: map<ZoneId, seq<DeviceId>>)
  {
    z.id in cfg.schedule && z.id in z2d && cfg.schedule[z.id].enabled
  }

  /** Lines 159-196 for one zone. */
  function ExpandZone(t: Table, z: Zone, cfg: Config, z2d: map<ZoneId, seq<DeviceId>>): Option<Table>
  {
    if Scheduled(z, cfg, z2d) then ExpandPlan(t, cfg.schedule[z.id].plan, z2d[z.id]) else Some(t)
  }

  /** The device half of the cleanup (lines 204-210): devices with no hours are deleted. */
  function CleanDay(s: DayMap): (r: DayMap)
    ensures forall d :: d in r <==> d in s && s[d] != map[]
    ensures forall d :: d in r ==> r[d] == s[d]
  {
    map d | d in s && s[d] != map[] :: s[d]
  }

  /** The cleanup (lines 203-215): empty devices, then empty days, are deleted. */
  function Clean(t: Table): (r: Table)
    ensures forall day :: day in r <==> day in t && CleanDay(t[day]) != map[]
    ensures forall day :: day in r ==> r[day] == CleanDay(t[day])
    ensures NoEmptyBranches(r)
  {
    map day | day in t && CleanDay(t[day]) != map[] :: CleanDay(t[day])
  }

  /** No day maps a device to an empty hour map and no day is empty. */
  predicate NoEmptyBranches(t: Table)
  {
    forall day :: day in t ==> t[day] != map[] && forall d :: d in t[day] ==> t[day][d] != map[]
  }

  /**
   * prepareScheduledDevices(zs): for each zone in order, expand its schedule,
   * compile its children, then clean up the whole table.
   */
  function Compile(t: Table, zs: seq<Zone>, cfg: Config, z2d: map<ZoneId, seq<DeviceId>>): Option<Table>
    decreases zs
  {
    if zs == [] then Some(t)
    else
      var z := zs[0];
      match ExpandZone(t, z, cfg, z2d)
      case None => None
      case Some(t1) =>
        match (if z.children != [] then Compile(t1, z.children, cfg, z2d) else Some(t1))
        case None => None
        case Some(t2) => Compile(Clean(t2), zs[1..], cfg, z2d)
  }

  /**
   * A zone without an enabled schedule entry, or without devices, adds
   * nothing, and its children are still compiled; the cleanup follows.
   */
  lemma UnscheduledZone(t: Table, z: Zone, cfg: Config, z2d: map<ZoneId, seq<DeviceId>>)
    requires !Scheduled(z, cfg, z2d)
    ensures ExpandZone(t, z, cfg, z2d) == Some(t)
    ensures Compile(t, [z], cfg, z2d)
            == match (if z.children != [] then Compile(t, z.children, cfg, z2d) else Some(t))
               case None => None
               case Some(t2) => Some(Clean(t2))
  {
    assert [z][1..] == [];
  }

  /**
   * Whatever the configuration, a compiled non-empty forest leaves no device
   * without hours and no day without devices: the cleanup runs last.
   */
  lemma {:induction false} CompileNoEmptyBranches(t: Table, zs: seq<Zone>, cfg: Config, z2d: map<ZoneId, seq<DeviceId>>)
    requires zs != [] && Compile(t, zs, cfg, z2d).Some?
    ensures NoEmptyBranches(Compile(t, zs, cfg, z2d).value)
    decreases zs
  {
    var z := zs[0];
    var t1 := ExpandZone(t, z, cfg, z2d).value;
    var t2 := (if z.children != [] then Compile(t1, z.children, cfg, z2d) else Some(t1)).value;
    if zs[1..] != [] {
      CompileNoEmptyBranches(Clean(t2), zs[1..], cfg, z2d);
    }
  }

  // ---------------------------------------------------------------------------
  // What the expansion computes when no device id looks like an hour

  /** No key of the day's device map is the property name of an integer. */
  predicate NoNumeralKeys(s: DayMap)
  {
    forall d :: d in s ==> !IsNumeral(d)
  }

  /**
   * Reference definition of one device's hour map after the dayparts of a
   * day, as a fold from the back: an hour already decided by a later
   * daypart stays, otherwise this daypart's minute and temperature decide it.
   */
  function DayHours(dps: seq<Daypart>): HourMap
    decreases dps
  {
    if dps == [] then map[]
    else
      var rest := DayHours(dps[1..]);
      match dps[0].hour
      case Some(h) => if h in rest then rest else rest[h := map[dps[0].minute := dps[0].temperature]]
      case None => rest
  }

  /**
   * DayHours holds exactly the hours some daypart names, and each holds only
   * the minute and temperature of the last daypart naming it.
   */
  lemma {:induction false} DayHoursSpec(dps: seq<Daypart>, h: int)
    ensures h in DayHours(dps) <==> exists i :: 0 <= i < |dps| && dps[i].hour == Some(h)
    ensures h in DayHours(dps) ==>
              exists i :: && 0 <= i < |dps| && dps[i].hour == Some(h)
                          && DayHours(dps)[h] == map[dps[i].minute := dps[i].temperature]
                          && forall j :: i < j < |dps| ==> dps[j].hour != Some(h)
    decreases dps
  {
    if dps != [] {
      DayHoursSpec(dps[1..], h);
      var rest := DayHours(dps[1..]);
      if h in rest {
        var i :| && 0 <= i < |dps[1..]| && dps[1..][i].hour == Some(h)
                 && rest[h] == map[dps[1..][i].minute := dps[1..][i].temperature]
                 && forall j :: i < j < |dps[1..]| ==> dps[1..][j].hour != Some(h);
        assert dps[i + 1] == dps[1..][i];
        assert forall j :: i + 1 < j < |dps| ==> dps[j] == dps[1..][j - 1];
      } else if dps[0].hour == Some(h) {
        assert forall j :: 0 < j < |dps| ==> dps[j] == dps[1..][j - 1];
      } else {
        assert forall i :: 0 < i < |dps| ==> dps[i] == dps[1..][i - 1];
      }
    }
  }

  /** The hours of `b` replace those of `a`; the other hours of `a` stay. */
  function Overlay(a: HourMap, b: HourMap): (r: HourMap)
    ensures r.Keys == a.Keys + b.Keys
    ensures forall h :: h in b ==> r[h] == b[h]
    ensures forall h :: h in a && h !in b ==> r[h] == a[h]
  {
    map h | h in a.Keys + b.Keys :: if h in b then b[h] else a[h]
  }

  lemma OverlayStep(a: HourMap, h: int, v: map<int, int>, rest: HourMap)
    ensures Overlay(a[h := v], rest) == Overlay(a, if h in rest then rest else rest[h := v])
  {
  }

  /**
   * With no numeral device ids the day has no key named like an hour and the
   * test at line 182 is always true, so the
   * daypart loop never raises and leaves the device with its old hours
   * overlaid by DayHours.
   */
  lemma {:induction false} SetDaypartsNoNumeral(s: DayMap, d: DeviceId, dps: seq<Daypart>)
    requires d in s && NoNumeralKeys(s)
    ensures SetDayparts(s, d, dps) == Some(s[d := Overlay(s[d], DayHours(dps))])
    decreases dps
  {
    if dps == [] {
      assert Overlay(s[d], map[]) == s[d];
      assert s[d := s[d]] == s;
    } else {
      var dp := dps[0];
      match dp.hour
      case None =>
        SetDaypartsNoNumeral(s, d, dps[1..]);
      case Some(h) =>
        assert Decimal(h) !in s;
        var v := map[dp.minute := dp.temperature];
        var s1 := s[d := s[d][h := v]];
        assert SetDaypart(s, d, dp) == Some(s1);
        assert SetDayparts(s, d, dps) == SetDayparts(s1, d, dps[1..]);
        var rest := DayHours(dps[1..]);
        assert DayHours(dps) == if h in rest then rest else rest[h := v];
        assert NoNumeralKeys(s1);
        SetDaypartsNoNumeral(s1, d, dps[1..]);
        OverlayStep(s[d], h, v, rest);
        assert s1[d := Overlay(s1[d], rest)] == s[d := Overlay(s[d], DayHours(dps))];
    }
  }

  /** The device map after resetting and filling every device of `devs`. */
  function Assign(s: DayMap, devs: seq<DeviceId>, hours: HourMap): (r: DayMap)
    ensures r.Keys == s.Keys + set i | 0 <= i < |devs| :: devs[i]
    ensures forall d :: d in r ==> r[d] == if d in devs then hours else s[d]
  {
    map d | d in s.Keys + (set i | 0 <= i < |devs| :: devs[i]) :: if d in devs then hours else s[d]
  }

  lemma AssignStep(s: DayMap, devs: seq<DeviceId>, hours: HourMap)
    requires devs != []
    ensures Assign(s[devs[0] := hours], devs[1..], hours) == Assign(s, devs, hours)
  {
    assert forall x :: x in devs <==> x == devs[0] || x in devs[1..] by {
      assert devs == [devs[0]] + devs[1..];
    }
    assert (set i | 0 <= i < |devs| :: devs[i]) == {devs[0]} + set i | 0 <= i < |devs[1..]| :: devs[1..][i];
  }

  /** The device loop with no numeral ids: every device of the zone gets DayHours, the others keep theirs. */
  lemma {:induction false} SetDevicesNoNumeral(s: DayMap, devs: seq<DeviceId>, dps: seq<Daypart>)
    requires NoNumeralKeys(s) && forall i :: 0 <= i < |devs| ==> !IsNumeral(devs[i])
    ensures SetDevices(s, devs, dps) == Some(Assign(s, devs, DayHours(dps)))
    decreases devs
  {
    if devs == [] {
      assert Assign(s, devs, DayHours(dps)) == s;
    } else {
      var d := devs[0];
      var s0 := s[d := map[]];
      SetDaypartsNoNumeral(s0, d, dps);
      assert Overlay(map[], DayHours(dps)) == DayHours(dps);
      var s1 := s0[d := DayHours(dps)];
      assert s1 == s[d := DayHours(dps)];
      assert NoNumeralKeys(s1);
      assert forall i :: 0 <= i < |devs[1..]| ==> !IsNumeral(devs[1..][i]) by {
        forall i | 0 <= i < |devs[1..]| ensures !IsNumeral(devs[1..][i]) {
          assert devs[1..][i] == devs[i + 1];
        }
      }
      SetDevicesNoNumeral(s1, devs[1..], dps);
      AssignStep(s, devs, DayHours(dps));
    }
  }
}
