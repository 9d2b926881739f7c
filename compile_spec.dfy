/**
 * What prepareScheduledDevices computes, stated without its loops, for the
 * usual case where no device id is the decimal name of an integer (device ids
 * are UUIDs). Then the day never has a key named like an hour, the test at
 * app.js:182 is always true, nothing raises, and
 * the compiled table is the cleaned result of expanding every zone of the
 * tree in pre-order: for each day and device, the last zone in pre-order that
 * schedules the device on that day decides its hours.
 */
module CompileSpec {
  import opened Types
  import opened Forest
  import opened ScheduleCompiler

  predicate NoNumeralTable(t: Table)
  {
    forall day :: day in t ==> NoNumeralKeys(t[day])
  }

  predicate NoNumeralDevices(devs: seq<DeviceId>)
  {
    forall i :: 0 <= i < |devs| ==> !IsNumeral(devs[i])
  }

  predicate NoNumeralIndex(z2d: map<ZoneId, seq<DeviceId>>)
  {
    forall z :: z in z2d ==> NoNumeralDevices(z2d[z])
  }

  /** The dayparts of the last entry of the plan for `day`, if any. */
  function LastPlan(plan: seq<(Day, seq<Daypart>)>, day: Day): Option<seq<Daypart>>
    decreases plan
  {
    if plan == [] then None
    else match LastPlan(plan[1..], day)
      case Some(dps) => Some(dps)
      case None => if plan[0].0 == day then Some(plan[0].1) else None
  }

  lemma {:induction false} LastPlanSpec(plan: seq<(Day, seq<Daypart>)>, day: Day)
    ensures LastPlan(plan, day).Some? <==> exists i :: 0 <= i < |plan| && plan[i].0 == day
    ensures LastPlan(plan, day).Some? ==>
              exists i :: && 0 <= i < |plan| && plan[i].0 == day && LastPlan(plan, day).value == plan[i].1
                          && forall j :: i < j < |plan| ==> plan[j].0 != day
    decreases plan
  {
    if plan != [] {
      LastPlanSpec(plan[1..], day);
      if LastPlan(plan[1..], day).Some? {
        var i :| && 0 <= i < |plan[1..]| && plan[1..][i].0 == day && LastPlan(plan[1..], day).value == plan[1..][i].1
                 && forall j :: i < j < |plan[1..]| ==> plan[1..][j].0 != day;
        assert plan[i + 1] == plan[1..][i];
        assert forall j :: i + 1 < j < |plan| ==> plan[j] == plan[1..][j - 1];
      } else if plan[0].0 == day {
        assert forall j :: 0 < j < |plan| ==> plan[j] == plan[1..][j - 1];
      } else {
        assert forall i :: 0 < i < |plan| ==> plan[i] == plan[1..][i - 1];
      }
    }
  }

  /** The device map of `day` before the zone's plan touches it. */
  function Base(t: Table, day: Day): DayMap
  {
    if day in t then t[day] else map[]
  }

  function PlanDays(plan: seq<(Day, seq<Daypart>)>): set<Day>
  {
    set i | 0 <= i < |plan| :: plan[i].0
  }

  /**
   * Reference definition of the day loop: every day the plan names gets the
   * zone's devices assigned the hours of the day's last entry.
   */
  function PlanTable(t: Table, plan: seq<(Day, seq<Daypart>)>, devs: seq<DeviceId>): (r: Table)
    ensures r.Keys == t.Keys + PlanDays(plan)
  {
    map day | day in t.Keys + PlanDays(plan) ::
      match LastPlan(plan, day)
      case None => Base(t, day)
      case Some(dps) => Assign(Base(t, day), devs, DayHours(dps))
  }

  lemma AssignTwice(s: DayMap, devs: seq<DeviceId>, a: HourMap, b: HourMap)
    ensures Assign(Assign(s, devs, a), devs, b) == Assign(s, devs, b)
  {
  }

  lemma AssignNoNumeral(s: DayMap, devs: seq<DeviceId>, h: HourMap)
    requires NoNumeralKeys(s) && NoNumeralDevices(devs)
    ensures NoNumeralKeys(Assign(s, devs, h))
  {
  }

  lemma PlanTableNoNumeral(t: Table, plan: seq<(Day, seq<Daypart>)>, devs: seq<DeviceId>)
    requires NoNumeralTable(t) && NoNumeralDevices(devs)
    ensures NoNumeralTable(PlanTable(t, plan, devs))
  {
    var r := PlanTable(t, plan, devs);
    forall day | day in r ensures NoNumeralKeys(r[day]) {
      if LastPlan(plan, day).Some? {
        AssignNoNumeral(Base(t, day), devs, DayHours(LastPlan(plan, day).value));
      }
    }
  }

  lemma PlanTableStepAt(t: Table, plan: seq<(Day, seq<Daypart>)>, devs: seq<DeviceId>, day: Day)
    requires plan != []
    requires day in t || day in PlanDays(plan)
    ensures var t1 := t[plan[0].0 := Assign(Base(t, plan[0].0), devs, DayHours(plan[0].1))];
            day in PlanTable(t1, plan[1..], devs) && PlanTable(t1, plan[1..], devs)[day] == PlanTable(t, plan, devs)[day]
  {
    var day0 := plan[0].0;
    var t1 := t[day0 := Assign(Base(t, day0), devs, DayHours(plan[0].1))];
    PlanDaysStep(plan);
    var later := LastPlan(plan[1..], day);
    assert LastPlan(plan, day) == if later.Some? then later else if day0 == day then Some(plan[0].1) else None;
    if later.Some? && day == day0 {
      AssignTwice(Base(t, day0), devs, DayHours(plan[0].1), DayHours(later.value));
    } else if day != day0 {
      assert Base(t1, day) == Base(t, day);
    }
  }

  lemma PlanDaysStep(plan: seq<(Day, seq<Daypart>)>)
    requires plan != []
    ensures PlanDays(plan) == {plan[0].0} + PlanDays(plan[1..])
  {
    forall i | 0 < i < |plan| ensures plan[i] == plan[1..][i - 1] { }
  }

  /** One step of the day loop, on the reference side. */
  lemma PlanTableStep(t: Table, plan: seq<(Day, seq<Daypart>)>, devs: seq<DeviceId>)
    requires plan != []
    ensures PlanTable(t[plan[0].0 := Assign(Base(t, plan[0].0), devs, DayHours(plan[0].1))], plan[1..], devs)
            == PlanTable(t, plan, devs)
  {
    var t1 := t[plan[0].0 := Assign(Base(t, plan[0].0), devs, DayHours(plan[0].1))];
    var a, b := PlanTable(t1, plan[1..], devs), PlanTable(t, plan, devs);
    PlanTableKeysStep(t, t1, plan, devs);
    forall day | day in b ensures a[day] == b[day] {
      PlanTableStepAt(t, plan, devs, day);
    }
  }

  lemma PlanTableKeysStep(t: Table, t1: Table, plan: seq<(Day, seq<Daypart>)>, devs: seq<DeviceId>)
    requires plan != [] && t1.Keys == t.Keys + {plan[0].0}
    ensures PlanTable(t1, plan[1..], devs).Keys == PlanTable(t, plan, devs).Keys
  {
    PlanDaysStep(plan);
  }

  /** The day loop never raises and computes PlanTable. */
  lemma {:induction false} ExpandPlanSpec(t: Table, plan: seq<(Day, seq<Daypart>)>, devs: seq<DeviceId>)
    requires NoNumeralTable(t) && NoNumeralDevices(devs)
    ensures ExpandPlan(t, plan, devs) == Some(PlanTable(t, plan, devs))
    decreases plan
  {
    if plan == [] {
      assert PlanTable(t, plan, devs) == t;
    } else {
      var day0 := plan[0].0;
      var s := Base(t, day0);
      SetDevicesNoNumeral(s, devs, plan[0].1);
      var t1 := t[day0 := Assign(s, devs, DayHours(plan[0].1))];
      AssignNoNumeral(s, devs, DayHours(plan[0].1));
      assert NoNumeralTable(t1);
      ExpandPlanSpec(t1, plan[1..], devs);
      PlanTableStep(t, plan, devs);
    }
  }

  // ---------------------------------------------------------------------------
  // Zones and the sweep over a tree

  /** Reference definition of one zone's expansion. */
  function ZoneTable(t: Table, z: Zone, cfg: Config, z2d: map<ZoneId, seq<DeviceId>>): Table
  {
    if Scheduled(z, cfg, z2d) then PlanTable(t, cfg.schedule[z.id].plan, z2d[z.id]) else t
  }

  lemma ExpandZoneSpec(t: Table, z: Zone, cfg: Config, z2d: map<ZoneId, seq<DeviceId>>)
    requires NoNumeralTable(t) && NoNumeralIndex(z2d)
    ensures ExpandZone(t, z, cfg, z2d) == Some(ZoneTable(t, z, cfg, z2d))
    ensures NoNumeralTable(ZoneTable(t, z, cfg, z2d))
  {
    if Scheduled(z, cfg, z2d) {
      ExpandPlanSpec(t, cfg.schedule[z.id].plan, z2d[z.id]);
      PlanTableNoNumeral(t, cfg.schedule[z.id].plan, z2d[z.id]);
    }
  }

  /** Every zone of `zs` expanded in turn, with no cleanup in between. */
  function Sweep(t: Table, zs: seq<Zone>, cfg: Config, z2d: map<ZoneId, seq<DeviceId>>): Table
    decreases zs
  {
    if zs == [] then t else Sweep(ZoneTable(t, zs[0], cfg, z2d), zs[1..], cfg, z2d)
  }

  lemma {:induction false} SweepConcat(t: Table, a: seq<Zone>, b: seq<Zone>, cfg: Config, z2d: map<ZoneId, seq<DeviceId>>)
    ensures Sweep(t, a + b, cfg, z2d) == Sweep(Sweep(t, a, cfg, z2d), b, cfg, z2d)
    decreases a
  {
    if a == [] {
      assert a + b == b;
    } else {
      assert (a + b)[0] == a[0] && (a + b)[1..] == a[1..] + b;
      SweepConcat(ZoneTable(t, a[0], cfg, z2d), a[1..], b, cfg, z2d);
    }
  }

  lemma {:induction false} SweepNoNumeral(t: Table, zs: seq<Zone>, cfg: Config, z2d: map<ZoneId, seq<DeviceId>>)
    requires NoNumeralTable(t) && NoNumeralIndex(z2d)
    ensures NoNumeralTable(Sweep(t, zs, cfg, z2d))
    decreases zs
  {
    if zs != [] {
      ExpandZoneSpec(t, zs[0], cfg, z2d);
      SweepNoNumeral(ZoneTable(t, zs[0], cfg, z2d), zs[1..], cfg, z2d);
    }
  }

  // ---------------------------------------------------------------------------
  // Cleanup commutes with expansion

  /** Two tables that agree once empty devices and days are dropped. */
  ghost predicate CleanEquiv(t: Table, u: Table)
  {
    forall day :: CleanDay(Base(t, day)) == CleanDay(Base(u, day))
  }

  lemma CleanDayIdempotent(s: DayMap)
    ensures CleanDay(CleanDay(s)) == CleanDay(s)
  {
  }

  lemma CleanBase(t: Table, day: Day)
    ensures Base(Clean(t), day) == CleanDay(Base(t, day))
  {
  }

  lemma CleanEquivClean(t: Table)
    ensures CleanEquiv(Clean(t), t)
  {
    forall day ensures CleanDay(Base(Clean(t), day)) == CleanDay(Base(t, day)) {
      CleanBase(t, day);
      CleanDayIdempotent(Base(t, day));
    }
  }

  lemma CleanEquivExt(t: Table, u: Table)
    requires CleanEquiv(t, u)
    ensures Clean(t) == Clean(u)
  {
    forall day ensures (day in Clean(t) <==> day in Clean(u)) && Base(Clean(t), day) == Base(Clean(u), day) {
      CleanBase(t, day);
      CleanBase(u, day);
    }
  }

  /** A device of the cleaned map after Assign: its new hours, or its old ones when it is not assigned. */
  lemma CleanDayAssignAt(s: DayMap, devs: seq<DeviceId>, h: HourMap, d: DeviceId)
    ensures d in CleanDay(Assign(s, devs, h)) <==> if d in devs then h != map[] else d in CleanDay(s)
    ensures d in CleanDay(Assign(s, devs, h)) ==> CleanDay(Assign(s, devs, h))[d] == if d in devs then h else CleanDay(s)[d]
  {
    assert d in devs ==> d in set i | 0 <= i < |devs| :: devs[i];
  }

  lemma CleanDayAssign(s: DayMap, s': DayMap, devs: seq<DeviceId>, h: HourMap)
    requires CleanDay(s) == CleanDay(s')
    ensures CleanDay(Assign(s, devs, h)) == CleanDay(Assign(s', devs, h))
  {
    forall d ensures (d in CleanDay(Assign(s, devs, h)) <==> d in CleanDay(Assign(s', devs, h)))
                  && (d in CleanDay(Assign(s, devs, h)) ==> CleanDay(Assign(s, devs, h))[d] == CleanDay(Assign(s', devs, h))[d]) {
      CleanDayAssignAt(s, devs, h, d);
      CleanDayAssignAt(s', devs, h, d);
    }
  }

  lemma ZoneTableCleanEquiv(t: Table, u: Table, z: Zone, cfg: Config, z2d: map<ZoneId, seq<DeviceId>>)
    requires CleanEquiv(t, u)
    ensures CleanEquiv(ZoneTable(t, z, cfg, z2d), ZoneTable(u, z, cfg, z2d))
  {
    if Scheduled(z, cfg, z2d) {
      var plan, devs := cfg.schedule[z.id].plan, z2d[z.id];
      forall day ensures CleanDay(Base(PlanTable(t, plan, devs), day)) == CleanDay(Base(PlanTable(u, plan, devs), day)) {
        match LastPlan(plan, day)
        case None =>
        case Some(dps) =>
          CleanDayAssign(Base(t, day), Base(u, day), devs, DayHours(dps));
          LastPlanSpec(plan, day);
          assert day in PlanDays(plan);
      }
    }
  }

  lemma {:induction false} SweepCleanEquiv(t: Table, u: Table, zs: seq<Zone>, cfg: Config, z2d: map<ZoneId, seq<DeviceId>>)
    requires CleanEquiv(t, u)
    ensures CleanEquiv(Sweep(t, zs, cfg, z2d), Sweep(u, zs, cfg, z2d))
    decreases zs
  {
    if zs != [] {
      ZoneTableCleanEquiv(t, u, zs[0], cfg, z2d);
      SweepCleanEquiv(ZoneTable(t, zs[0], cfg, z2d), ZoneTable(u, zs[0], cfg, z2d), zs[1..], cfg, z2d);
    }
  }

  /** Cleaning between zones changes nothing once the final table is cleaned. */
  lemma CleanSweep(t: Table, zs: seq<Zone>, cfg: Config, z2d: map<ZoneId, seq<DeviceId>>)
    ensures Clean(Sweep(Clean(t), zs, cfg, z2d)) == Clean(Sweep(t, zs, cfg, z2d))
  {
    CleanEquivClean(t);
    SweepCleanEquiv(Clean(t), t, zs, cfg, z2d);
    CleanEquivExt(Sweep(Clean(t), zs, cfg, z2d), Sweep(t, zs, cfg, z2d));
  }

  lemma CleanIdempotent(t: Table)
    ensures Clean(Clean(t)) == Clean(t)
  {
    CleanEquivClean(t);
    CleanEquivExt(Clean(t), t);
  }

  lemma CleanNoNumeral(t: Table)
    requires NoNumeralTable(t)
    ensures NoNumeralTable(Clean(t))
  {
  }

  // ---------------------------------------------------------------------------
  // The compiler

  /**
   * prepareScheduledDevices on a non-empty forest never raises and yields the
   * cleaned sweep of the whole tree in pre-order.
   */
  lemma {:induction false} CompileIsSweep(t: Table, zs: seq<Zone>, cfg: Config, z2d: map<ZoneId, seq<DeviceId>>)
    requires NoNumeralTable(t) && NoNumeralIndex(z2d)
    ensures Compile(t, zs, cfg, z2d) == Some(if zs == [] then t else Clean(Sweep(t, Flat(zs), cfg, z2d)))
    decreases zs
  {
    if zs != [] {
      var z := zs[0];
      ExpandZoneSpec(t, z, cfg, z2d);
      var t1 := ZoneTable(t, z, cfg, z2d);
      var u := Sweep(t1, Flat(z.children), cfg, z2d);
      if z.children != [] {
        CompileIsSweep(t1, z.children, cfg, z2d);
        CleanIdempotent(u);
      } else {
        assert u == t1;
      }
      var t2 := if z.children != [] then Clean(u) else u;
      assert Compile(t, zs, cfg, z2d) == Compile(Clean(t2), zs[1..], cfg, z2d);
      assert Clean(t2) == Clean(u);
      SweepConcat(t, [z], Flat(z.children), cfg, z2d);
      assert Sweep(t, [z] + Flat(z.children), cfg, z2d) == u;
      SweepNoNumeral(t1, Flat(z.children), cfg, z2d);
      CleanNoNumeral(u);
      CompileIsSweep(Clean(u), zs[1..], cfg, z2d);
      assert Flat(zs) == [z] + Flat(z.children) + Flat(zs[1..]);
      SweepConcat(t, [z] + Flat(z.children), Flat(zs[1..]), cfg, z2d);
      if zs[1..] != [] {
        CleanSweep(u, Flat(zs[1..]), cfg, z2d);
      } else {
        assert Flat(zs) == [z] + Flat(z.children);
      }
    }
  }

  // ---------------------------------------------------------------------------
  // The last zone in pre-order wins

  /** The zone's expansion writes the hours of device `d` on `day`. */
  predicate Touches(z: Zone, day: Day, d: DeviceId, cfg: Config, z2d: map<ZoneId, seq<DeviceId>>)
  {
    Scheduled(z, cfg, z2d) && d in z2d[z.id] && LastPlan(cfg.schedule[z.id].plan, day).Some?
  }

  /** The hours a touching zone writes. */
  function Written(z: Zone, day: Day, d: DeviceId, cfg: Config, z2d: map<ZoneId, seq<DeviceId>>): HourMap
    requires Touches(z, day, d, cfg, z2d)
  {
    DayHours(LastPlan(cfg.schedule[z.id].plan, day).value)
  }

  lemma ZoneTableAt(t: Table, z: Zone, day: Day, d: DeviceId, cfg: Config, z2d: map<ZoneId, seq<DeviceId>>)
    ensures var b := Base(ZoneTable(t, z, cfg, z2d), day);
            if Touches(z, day, d, cfg, z2d) then d in b && b[d] == Written(z, day, d, cfg, z2d)
            else (d in b <==> d in Base(t, day)) && (d in b ==> b[d] == Base(t, day)[d])
  {
    if Scheduled(z, cfg, z2d) {
      var plan := cfg.schedule[z.id].plan;
      LastPlanSpec(plan, day);
      if LastPlan(plan, day).Some? {
        assert day in PlanDays(plan);
        assert d in z2d[z.id] ==> d in set i | 0 <= i < |z2d[z.id]| :: z2d[z.id][i];
      }
    }
  }

  /** Zones that do not touch (day, d) leave its hours as they were. */
  lemma {:induction false} SweepUntouched(t: Table, zs: seq<Zone>, day: Day, d: DeviceId, cfg: Config, z2d: map<ZoneId, seq<DeviceId>>)
    requires forall j :: 0 <= j < |zs| ==> !Touches(zs[j], day, d, cfg, z2d)
    ensures var b := Base(Sweep(t, zs, cfg, z2d), day);
            (d in b <==> d in Base(t, day)) && (d in b ==> b[d] == Base(t, day)[d])
    decreases zs
  {
    if zs != [] {
      ZoneTableAt(t, zs[0], day, d, cfg, z2d);
      assert forall j :: 0 <= j < |zs[1..]| ==> zs[1..][j] == zs[j + 1];
      SweepUntouched(ZoneTable(t, zs[0], cfg, z2d), zs[1..], day, d, cfg, z2d);
    }
  }

  /** The last zone of the sweep that touches (day, d) decides its hours. */
  lemma SweepLastWins(t: Table, zs: seq<Zone>, i: int, day: Day, d: DeviceId, cfg: Config, z2d: map<ZoneId, seq<DeviceId>>)
    requires 0 <= i < |zs| && Touches(zs[i], day, d, cfg, z2d)
    requires forall j :: i < j < |zs| ==> !Touches(zs[j], day, d, cfg, z2d)
    ensures var b := Base(Sweep(t, zs, cfg, z2d), day);
            d in b && b[d] == Written(zs[i], day, d, cfg, z2d)
  {
    assert zs == zs[..i] + [zs[i]] + zs[i + 1..];
    SweepConcat(t, zs[..i] + [zs[i]], zs[i + 1..], cfg, z2d);
    SweepConcat(t, zs[..i], [zs[i]], cfg, z2d);
    var before := Sweep(t, zs[..i], cfg, z2d);
    assert Sweep(before, [zs[i]], cfg, z2d) == ZoneTable(before, zs[i], cfg, z2d);
    ZoneTableAt(before, zs[i], day, d, cfg, z2d);
    var after := zs[i + 1..];
    assert forall j :: 0 <= j < |after| ==> after[j] == zs[i + 1 + j];
    SweepUntouched(ZoneTable(before, zs[i], cfg, z2d), zs[i + 1..], day, d, cfg, z2d);
  }

  /**
   * After prepareScheduledDevices, device `d` has hours on `day` exactly when
   * the last zone in pre-order that schedules it on that day writes some, and
   * then it has those: a child zone's plan replaces its parent's.
   */
  lemma CompileLastWins(t: Table, zs: seq<Zone>, cfg: Config, z2d: map<ZoneId, seq<DeviceId>>, i: int, day: Day, d: DeviceId)
    requires NoNumeralTable(t) && NoNumeralIndex(z2d)
    requires 0 <= i < |Flat(zs)| && Touches(Flat(zs)[i], day, d, cfg, z2d)
    requires forall j :: i < j < |Flat(zs)| ==> !Touches(Flat(zs)[j], day, d, cfg, z2d)
    ensures Compile(t, zs, cfg, z2d).Some?
    ensures var r := Compile(t, zs, cfg, z2d).value;
            var h := Written(Flat(zs)[i], day, d, cfg, z2d);
            (day in r && d in r[day] <==> h != map[]) && (day in r && d in r[day] ==> r[day][d] == h)
  {
    CompileIsSweep(t, zs, cfg, z2d);
    var u := Sweep(t, Flat(zs), cfg, z2d);
    SweepLastWins(t, Flat(zs), i, day, d, cfg, z2d);
    CleanBase(u, day);
  }

  /**
   * When every zone that writes `day` writes only device `d0`, and the table
   * had no `day` before, the compiled `day` holds at most `d0`.
   */
  lemma CompileOnlyTouched(t: Table, zs: seq<Zone>, cfg: Config, z2d: map<ZoneId, seq<DeviceId>>, day: Day, d0: DeviceId)
    requires NoNumeralTable(t) && NoNumeralIndex(z2d) && zs != [] && day !in t
    requires forall j, d :: 0 <= j < |Flat(zs)| && Touches(Flat(zs)[j], day, d, cfg, z2d) ==> d == d0
    ensures Compile(t, zs, cfg, z2d).Some?
    ensures var r := Compile(t, zs, cfg, z2d).value;
            day in r ==> r[day].Keys <= {d0}
  {
    CompileIsSweep(t, zs, cfg, z2d);
    var r := Compile(t, zs, cfg, z2d).value;
    forall d | day in r && d in r[day] ensures d == d0 {
      if d != d0 {
        CompileUntouched(t, zs, cfg, z2d, day, d);
      }
    }
  }

  /** A device no zone schedules on `day` keeps its hours, if it had any. */
  lemma CompileUntouched(t: Table, zs: seq<Zone>, cfg: Config, z2d: map<ZoneId, seq<DeviceId>>, day: Day, d: DeviceId)
    requires NoNumeralTable(t) && NoNumeralIndex(z2d) && zs != []
    requires forall j :: 0 <= j < |Flat(zs)| ==> !Touches(Flat(zs)[j], day, d, cfg, z2d)
    ensures Compile(t, zs, cfg, z2d).Some?
    ensures var r := Compile(t, zs, cfg, z2d).value;
            (day in r && d in r[day] <==> day in t && d in t[day] && t[day][d] != map[])
            && (day in r && d in r[day] ==> r[day][d] == t[day][d])
  {
    CompileIsSweep(t, zs, cfg, z2d);
    var u := Sweep(t, Flat(zs), cfg, z2d);
    SweepUntouched(t, Flat(zs), day, d, cfg, z2d);
    CleanBase(u, day);
  }

  // ---------------------------------------------------------------------------
  // Refreshing with the same inputs

  /** The index of the last zone of `zs` that touches (day, d), or -1. */
  function LastTouch(zs: seq<Zone>, day: Day, d: DeviceId, cfg: Config, z2d: map<ZoneId, seq<DeviceId>>): (r: int)
    ensures -1 <= r < |zs|
    ensures r >= 0 ==> Touches(zs[r], day, d, cfg, z2d)
    ensures forall j :: r < j < |zs| ==> !Touches(zs[j], day, d, cfg, z2d)
    decreases zs
  {
    if zs == [] then -1
    else
      var k := LastTouch(zs[1..], day, d, cfg, z2d);
      if k >= 0 then k + 1 else if Touches(zs[0], day, d, cfg, z2d) then 0 else -1
  }

  lemma SweepTwiceAt(t: Table, zs: seq<Zone>, day: Day, cfg: Config, z2d: map<ZoneId, seq<DeviceId>>)
    ensures Base(Sweep(Sweep(t, zs, cfg, z2d), zs, cfg, z2d), day) == Base(Sweep(t, zs, cfg, z2d), day)
  {
    var s1 := Sweep(t, zs, cfg, z2d);
    var a, b := Base(Sweep(s1, zs, cfg, z2d), day), Base(s1, day);
    forall d ensures (d in a <==> d in b) && (d in a ==> a[d] == b[d]) {
      var k := LastTouch(zs, day, d, cfg, z2d);
      if k >= 0 {
        SweepLastWins(t, zs, k, day, d, cfg, z2d);
        SweepLastWins(s1, zs, k, day, d, cfg, z2d);
      } else {
        SweepUntouched(s1, zs, day, d, cfg, z2d);
      }
    }
  }

  /**
   * Compiling the same tree, index and configuration again over the table a
   * compilation produced changes nothing: with the same index, the table the
   * source keeps across refreshes settles after one refresh.
   */
  lemma CompileTwice(t: Table, zs: seq<Zone>, cfg: Config, z2d: map<ZoneId, seq<DeviceId>>)
    requires NoNumeralTable(t) && NoNumeralIndex(z2d)
    ensures Compile(t, zs, cfg, z2d).Some?
    ensures Compile(Compile(t, zs, cfg, z2d).value, zs, cfg, z2d) == Compile(t, zs, cfg, z2d)
  {
    CompileIsSweep(t, zs, cfg, z2d);
    if zs != [] {
      var f := Flat(zs);
      var s1 := Sweep(t, f, cfg, z2d);
      SweepNoNumeral(t, f, cfg, z2d);
      CleanNoNumeral(s1);
      CompileIsSweep(Clean(s1), zs, cfg, z2d);
      CleanSweep(s1, f, cfg, z2d);
      forall day ensures CleanDay(Base(Sweep(s1, f, cfg, z2d), day)) == CleanDay(Base(s1, day)) {
        SweepTwiceAt(t, f, day, cfg, z2d);
      }
      CleanEquivExt(Sweep(s1, f, cfg, z2d), s1);
    }
  }
}
