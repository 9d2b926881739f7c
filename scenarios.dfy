/**
 * A small home, run through the model: a "home" zone holding a "living"
 * zone with one thermostat, D1. Each lemma follows the data through one
 * stage of the scheduler: the heating index, the compiled table, and the
 * commands one minute of the week produces. The last three lemmas show the
 * test at app.js:182 at work.
 */
module Scenarios {
  import opened Types
  import opened Forest
  import opened HeatingIndex
  import opened ScheduleCompiler
  import opened CompileSpec
  import opened PollScheduler

  const Living: Zone := Zone("living", Some("home"), 0, [])
  const Home: Zone := Zone("home", None, 0, [Living])
  const Thermostat: Device := Device("D1", ZoneRef("living", Some("home")), {TargetTemperature})
  const Lamp: Device := Device("L1", ZoneRef("living", Some("home")), {"onoff"})

  /** Home heats to 19 at 6:00 on Mondays; the living room to 21 at 7:00 and "no change" at 22:00. */
  const HomePlan: ZoneSchedule := ZoneSchedule(true, [("mo", [Daypart(Some(6), 0, 19)])])
  const LivingPlan: ZoneSchedule :=
    ZoneSchedule(true, [("mo", [Daypart(Some(7), 0, 21), Daypart(Some(22), 0, -1)])])
  const Settings: Config := Config(Some(1), map["home" := HomePlan, "living" := LivingPlan])

  lemma HomeWellFormed()
    ensures WellFormed([Home])
  {
    assert Flat([Living]) == [Living];
    assert Flat([Home]) == [Home, Living];
  }

  /**
   * The thermostat is registered under its zone and then under "home"; the
   * lamp, lacking target_temperature, is not registered anywhere.
   */
  lemma IndexOfHome()
    ensures WellFormed([Home])
    ensures IndexDevices([Home], Index(map[], []), [Thermostat, Lamp])
            == Index(map["living" := ["D1"], "home" := ["D1"]], ["living", "home"])
  {
    HomeWellFormed();
    assert Walk([Home], Some("home"), [Living]) == [];
    assert Walk([Home], None, [Home]) == [];
    assert Walk([Home], Some("home"), [Home]) == ["home"];
    assert Chain([Home], Thermostat) == ["living", "home"];
    var m1 := AddToZone(map[], "living", "D1");
    assert Get(map[], "living") + ["D1"] == ["D1"];
    assert m1 == map["living" := ["D1"]];
    var m2 := AddToZone(m1, "home", "D1");
    assert Get(m1, "home") + ["D1"] == ["D1"];
    assert m2 == map["living" := ["D1"], "home" := ["D1"]];
    assert ["living", "home"][1..] == ["home"];
    assert Register(map[], ["living", "home"], "D1") == Register(m1, ["home"], "D1") == Register(m2, [], "D1");
    assert [] + ["living", "home"] == ["living", "home"];
    assert [Thermostat, Lamp][1..] == [Lamp];
    assert !IsHeating(Lamp);
    assert IndexDevices([Home], Index(map["living" := ["D1"], "home" := ["D1"]], ["living", "home"]), [Lamp])
           == Index(map["living" := ["D1"], "home" := ["D1"]], ["living", "home"]);
  }

  const Index0: map<ZoneId, seq<DeviceId>> := map["living" := ["D1"], "home" := ["D1"]]

  /** The living room's plan replaces the home's for D1, and the -1 entry is stored as it is. */
  lemma CompiledHome()
    ensures Compile(map[], [Home], Settings, Index0).Some?
    ensures var r := Compile(map[], [Home], Settings, Index0).value;
            "mo" in r && "D1" in r["mo"] && r["mo"]["D1"] == map[7 := map[0 := 21], 22 := map[0 := -1]]
  {
    assert Flat([Living]) == [Living];
    assert Flat([Home]) == [Home, Living];
    assert !IsNumeral("D1");
    assert Touches(Living, "mo", "D1", Settings, Index0);
    assert Written(Living, "mo", "D1", Settings, Index0) == map[7 := map[0 := 21], 22 := map[0 := -1]];
    CompileLastWins(map[], [Home], Settings, Index0, 1, "mo", "D1");
  }

  /** A device map whose only key is `k`. */
  lemma SoleEntry(m: DayMap, k: DeviceId, v: HourMap)
    requires m.Keys <= {k} && k in m && m[k] == v
    ensures m == map[k := v]
  {
  }

  /** No zone writes any device but D1 on Monday, so the compiled Monday holds D1 alone. */
  lemma CompiledMonday()
    ensures Compile(map[], [Home], Settings, Index0).Some?
    ensures var r := Compile(map[], [Home], Settings, Index0).value;
            "mo" in r && r["mo"] == map["D1" := map[7 := map[0 := 21], 22 := map[0 := -1]]]
  {
    CompiledHome();
    assert Flat([Living]) == [Living];
    assert Flat([Home]) == [Home, Living];
    forall j, d | 0 <= j < |Flat([Home])| && Touches(Flat([Home])[j], "mo", d, Settings, Index0)
      ensures d == "D1"
    {
      assert Flat([Home])[j] in [Home, Living];
    }
    CompileOnlyTouched(map[], [Home], Settings, Index0, "mo", "D1");
    var r := Compile(map[], [Home], Settings, Index0).value;
    SoleEntry(r["mo"], "D1", map[7 := map[0 := 21], 22 := map[0 := -1]]);
  }

  /** The first two commands of a due list fire, for different devices. */
  lemma DueHeads(cmds: seq<(DeviceId, int)>, t: Table, day: Day, hour: int, minute: int)
    requires IsDueList(cmds, t, day, hour, minute)
    ensures |cmds| >= 1 ==> Fires(t, day, hour, minute, cmds[0].0, cmds[0].1)
    ensures |cmds| >= 2 ==> Fires(t, day, hour, minute, cmds[1].0, cmds[1].1) && cmds[0].0 != cmds[1].0
  {
    if |cmds| >= 1 {
      assert (cmds[0].0, cmds[0].1) in cmds;
    }
    if |cmds| >= 2 {
      assert (cmds[1].0, cmds[1].1) in cmds;
    }
  }

  /** The commands of one minute when D1 is the only device of the day. */
  lemma OnlyDevice(cmds: seq<(DeviceId, int)>, t: Table, day: Day, hour: int, minute: int)
    requires IsDueList(cmds, t, day, hour, minute)
    requires day in t && t[day].Keys == {"D1"}
    ensures "D1" in t[day] && hour in t[day]["D1"] && minute in t[day]["D1"][hour] && t[day]["D1"][hour][minute] > 0
            ==> cmds == [("D1", t[day]["D1"][hour][minute])]
    ensures !("D1" in t[day] && hour in t[day]["D1"] && minute in t[day]["D1"][hour] && t[day]["D1"][hour][minute] > 0)
            ==> cmds == []
  {
    DueHeads(cmds, t, day, hour, minute);
    assert forall d :: d in t[day] ==> d == "D1";
    if "D1" in t[day] && hour in t[day]["D1"] && minute in t[day]["D1"][hour] && t[day]["D1"][hour][minute] > 0 {
      var v := t[day]["D1"][hour][minute];
      assert Fires(t, day, hour, minute, "D1", v);
      assert ("D1", v) in cmds;
      assert cmds == [("D1", v)];
    }
  }

  /** The three Monday ticks over any table whose Monday is the compiled one. */
  lemma TicksOfMonday(r: Table, at7: seq<(DeviceId, int)>, at22: seq<(DeviceId, int)>, at6: seq<(DeviceId, int)>)
    requires "mo" in r && r["mo"] == map["D1" := map[7 := map[0 := 21], 22 := map[0 := -1]]]
    requires IsDueList(at7, r, WeekDay(1), 7, 0)
    requires IsDueList(at22, r, WeekDay(1), 22, 0)
    requires IsDueList(at6, r, WeekDay(1), 6, 0)
    ensures at7 == [("D1", 21)] && at22 == [] && at6 == []
  {
    assert WeekDay(1) == "mo";
    assert r["mo"].Keys == {"D1"};
    OnlyDevice(at7, r, "mo", 7, 0);
    OnlyDevice(at22, r, "mo", 22, 0);
    OnlyDevice(at6, r, "mo", 6, 0);
  }

  /**
   * On Monday at 7:00 the tick over the compiled home sets D1 to 21; at 22:00
   * the stored -1 sends nothing; at 6:00 the home's own entry, overridden by
   * the living room's, sends nothing either.
   */
  lemma MondayTicks(at7: seq<(DeviceId, int)>, at22: seq<(DeviceId, int)>, at6: seq<(DeviceId, int)>)
    requires var c := Compile(map[], [Home], Settings, Index0);
             && c.Some?
             && IsDueList(at7, c.value, WeekDay(1), 7, 0)
             && IsDueList(at22, c.value, WeekDay(1), 22, 0)
             && IsDueList(at6, c.value, WeekDay(1), 6, 0)
    ensures at7 == [("D1", 21)] && at22 == [] && at6 == []
  {
    CompiledMonday();
    TicksOfMonday(Compile(map[], [Home], Settings, Index0).value, at7, at22, at6);
  }

  /**
   * Two dayparts in the same hour: since the test at line 182 never finds
   * the hour among the device ids, the hour map is recreated and only the
   * later minute survives.
   */
  lemma SameHourKeepsLastMinute()
    ensures SetDayparts(map["D1" := map[]], "D1", [Daypart(Some(7), 0, 20), Daypart(Some(7), 30, 22)])
            == Some(map["D1" := map[7 := map[30 := 22]]])
  {
    var dps := [Daypart(Some(7), 0, 20), Daypart(Some(7), 30, 22)];
    assert !IsNumeral("D1");
    SetDaypartsNoNumeral(map["D1" := map[]], "D1", dps);
    assert dps[1..][1..] == [];
    assert DayHours(dps[1..]) == map[7 := map[30 := 22]];
    assert DayHours(dps) == map[7 := map[30 := 22]];
    assert Overlay(map[], map[7 := map[30 := 22]]) == map[7 := map[30 := 22]];
    assert map["D1" := map[]]["D1" := map[7 := map[30 := 22]]] == map["D1" := map[7 := map[30 := 22]]];
  }

  const Hall: Zone := Zone("hall", None, 0, [])
  const HallSettings: Config := Config(Some(1), map["hall" := ZoneSchedule(true, [("mo", [Daypart(Some(7), 0, 20)])])])

  /**
   * A device whose id reads like the hour makes the test at line 182 false,
   * so no hour map is created and, for the other device, which has no map for
   * that hour, line 186 raises.
   */
  lemma NumeralDeviceIdRaises()
    ensures SetDaypart(map["7" := map[], "D1" := map[]], "D1", Daypart(Some(7), 0, 20)) == None
  {
    assert Digits(7) == "7";
  }

  /**
   * A device named "7" in a zone planned for 7:00: its hour map is reset
   * before its dayparts are stored; the test at line 182 finds its own id,
   * is false, and line 186 raises, and the whole compile fails.
   */
  lemma NumeralDeviceIdFailsCompile()
    ensures Compile(map[], [Hall], HallSettings, map["hall" := ["7"]]) == None
  {
    assert Digits(7) == "7";
    var dp := Daypart(Some(7), 0, 20);
    assert SetDaypart(map["7" := map[]], "7", dp) == None;
    assert SetDayparts(map["7" := map[]], "7", [dp]) == None;
    assert SetDevices(map[], ["7"], [dp]) == None;
    assert ExpandPlan(map[], [("mo", [dp])], ["7"]) == None;
    assert ExpandZone(map[], Hall, HallSettings, map["hall" := ["7"]]) == None;
  }
}
