/**
 * The pure parts of the polling loop (app.js doSchedule and getWeekDay): the
 * refresh test, the weekday name, and the lookup of the commands due at one
 * minute of the week.
 */
module PollScheduler {
  import opened Types

  const Weekdays: seq<Day> := ["su", "mo", "tu", "we", "th", "fr", "sa"]

  /** getWeekDay: the name of a Date.getDay() index, Sunday first. */
  function WeekDay(i: int): (r: Day)
    requires 0 <= i < 7
    ensures r in Weekdays && |r| == 2
    ensures forall j :: 0 <= j < 7 && Weekdays[j] == r ==> j == i
  {
    Weekdays[i]
  }

  /** Math.ceil(ms / 1000) for a whole number of milliseconds. */
  function ElapsedSeconds(ms: int): (r: int)
    ensures (r - 1) * 1000 < ms <= r * 1000
  {
    (ms + 999) / 1000
  }

  /**
   * The refresh test of doSchedule (lines 84-90). `updated` is compared with
   * loose inequality, so null and undefined are equal; an undefined lastUpdate
   * makes the elapsed time NaN, which is never greater than 600.
   */
  function NeedsRefresh(live: Config, cfg: Config, now: int, lastUpdate: Option<int>): (r: bool)
    ensures r <==> live.updated != cfg.updated || (lastUpdate.Some? && now - lastUpdate.value > 600000)
  {
    live.updated != cfg.updated || (lastUpdate.Some? && ElapsedSeconds(now - lastUpdate.value) > 60 * 10)
  }

  /** The table holds a real temperature `v` for device `d` at this day, hour and minute. */
  predicate Fires(t: Table, day: Day, hour: int, minute: int, d: DeviceId, v: int)
  {
    && day in t && d in t[day] && hour in t[day][d] && minute in t[day][d][hour]
    && t[day][d][hour][minute] == v && v > 0
  }

  /** One command per device that fires, and no other. */
  ghost predicate IsDueList(cmds: seq<(DeviceId, int)>, t: Table, day: Day, hour: int, minute: int)
  {
    && (forall d, v :: (d, v) in cmds <==> Fires(t, day, hour, minute, d, v))
    && (forall i, j :: 0 <= i < j < |cmds| ==> cmds[i].0 != cmds[j].0)
  }

  /**
   * The lookup loop of doSchedule (lines 109-130): for every device of the day,
   * the temperature stored at this hour and minute, when it is above zero.
   */
  method DueCommands(t: Table, day: Day, hour: int, minute: int) returns (cmds: seq<(DeviceId, int)>)
    ensures IsDueList(cmds, t, day, hour, minute)
  {
    cmds := [];
    if day in t {
      var todo := t[day].Keys;
      while todo != {}
        invariant todo <= t[day].Keys
        invariant forall d, v :: (d, v) in cmds <==> d !in todo && Fires(t, day, hour, minute, d, v)
        invariant forall i, j :: 0 <= i < j < |cmds| ==> cmds[i].0 != cmds[j].0
        invariant forall i :: 0 <= i < |cmds| ==> cmds[i].0 !in todo
        decreases todo
      {
        var d :| d in todo;
        var hours := t[day][d];
        if hour in hours {
          var minutes := hours[hour];
          if minute in minutes {
            var v := minutes[minute];
            if v > 0 {
              cmds := cmds + [(d, v)];
            }
          }
        }
        todo := todo - {d};
      }
    }
  }

  /** A "no change" entry, or any temperature not above zero, never produces a command. */
  lemma SentinelNeverSent(cmds: seq<(DeviceId, int)>, t: Table, day: Day, hour: int, minute: int)
    requires IsDueList(cmds, t, day, hour, minute)
    ensures forall c :: c in cmds ==> c.1 > 0
    ensures day !in t ==> cmds == []
  {
    forall c | c in cmds ensures c.1 > 0 {
      assert (c.0, c.1) in cmds;
    }
    if cmds != [] {
      assert (cmds[0].0, cmds[0].1) in cmds;
      assert day in t;
    }
  }
}
