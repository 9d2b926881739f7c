# Heating schedule — a verified model of the scheduler core

This project models the scheduler in `app.js` of the Homey heating-schedule app. The app keeps
per-zone weekly temperature plans. It finds the thermostats (devices with a `target_temperature`
capability) and the zones that contain them. It then compiles the plans into one table
`day -> device -> hour -> minute -> temperature`. Once a minute it sends every positive
temperature that is due.

Modules, one per stage of the source:

- `Types`: zones (a tree whose children form a sequence in property order), devices, dayparts,
  zone schedules, the stored configuration and the compiled table. JavaScript truthiness of a
  zone id is `Truthy`: present and not the empty string.
- `Forest`: the flattened zone tree and the well-formedness the parent walk needs to terminate.
  Ids must be unique, every child must name its container as parent, and top-level zones must have
  a falsy parent. `Rank` measures the walk.
- `HeatingIndex`: the pure semantics of the heating index built by `addToZone`,
  `addDeviceToZone`, `addDeviceToParentZones` and `addHeatingDevices`. `Walk` is the recursive
  search of the zone tree for the parent, and `Ancestors` is its independent reference.
- `ZonePruning`: `getZonesWithHeatingDevice` as the function `Prune` and as the method
  `PruneZones`, a loop that rebuilds the zone sequence. Also `zoneChildrenToArrayRecursive`.
- `ScheduleCompiler`: `prepareScheduledDevices` as a chain of folds (`SetDaypart` …
  `Compile`), including the cleanup pass after each zone. The test at app.js:182 is modelled
  as written. It tests the hour against the day's device ids, not against the device's own
  hours. JavaScript compares property names as strings, so the model compares the hour's
  decimal name (`Decimal`). When the day has a device id named like the hour (the test at line 182 is false) and the
  device has no map for that hour, the source raises a TypeError at line 186; the model returns `None`.
- `CompileSpec`: an independent description of the compiled table that holds when no device id
  is a decimal numeral (device ids are UUIDs). Zones are visited in pre-order, and the last zone
  to write a device on a day wins (`Sweep`). Within one daypart list, the last daypart of each
  hour wins (`DayHours`). Cleanup commutes with the whole sweep. A second compile over the same
  inputs changes nothing.
- `PollScheduler`: the refresh test and the minute tick of `doSchedule` (`DueCommands`).
- `App`: the module-level state of app.js:5-12 as the class `HeatingSchedule`. Its methods
  update the fields in place, as the source's functions update the globals. Each method is proved
  against the functions above. `Refresh` is the body of `getConfig` once both API answers are in.
  `DoSchedule` is `doSchedule`.
- `Scenarios`: a home with a living room and one thermostat, followed through indexing,
  compiling and three ticks. It also shows the test at line 182 at work.

`isEmptyObject` is a comparison with the empty sequence or map wherever the source calls it.
Calls to `updateTemperature` are appended to the field `sent`.

## Model

| member | source | states |
|---|---|---|
| HeatingIndex.AddToZone | app.js:237-245 | the zone's list gains the device at its end, a missing list is created, every other zone's list is unchanged |
| HeatingIndex.RegisterSpec | app.js:237-245 | after registering a device under a run of zones, a zone's list holds exactly its old entries plus the device if the zone was in the run; a zone is a key iff it was one or was in the run; old lists are prefixes of the new ones |
| HeatingIndex.WalkMisses | app.js:253-267 | when no zone below the searched zones has the parent's id, the walk registers nothing |
| HeatingIndex.WalkMeets | app.js:253-267 | when a zone with the parent's id lies below the searched zones, the walk registers that zone and then continues from its own parent over the whole tree |
| HeatingIndex.WalkIsAncestors | app.js:253-267 | the recursive walk from a parent id over the whole tree yields exactly the chain of ancestors, nearest first, following parent ids until a parent is falsy or names no zone |
| HeatingIndex.IndexDevicesSpec | app.js:273-283 | after indexing, a zone lists a device iff it listed it before or the device is heating and the zone is the device's own zone or one of its ancestors; lists only grow |
| HeatingIndex.NonHeatingIgnored | app.js:278 | devices without target_temperature leave the index and the zone id list exactly as they were |
| HeatingIndex.HeatingOnly | app.js:278 | keeps exactly the devices that have target_temperature |
| ZonePruning.Prune | app.js:290-305 | no more zones survive than were given, and every surviving zone is kept by the rule of line 295 |
| ZonePruning.PruneZones | app.js:290-305 | the loop over the zones returns exactly `Prune` |
| ZonePruning.ChildrenToArray | app.js:308-319 | the child map becomes the sequence of children in property order |
| ZonePruning.PrunedZonesAreHeating | app.js:295-299 | every zone at any depth of the pruned tree has a falsy parent or is a heating zone |
| ZonePruning.PruneIdempotent | app.js:290-305 | pruning a pruned forest again changes nothing |
| ZonePruning.PrunedIdsFromOriginal | app.js:290-305 | every id in the pruned forest is the id of some zone of the original |
| ZonePruning.PruneTopLevel | app.js:295-299 | a zone that is not kept disappears with its whole subtree; a kept zone survives with its children pruned |
| ScheduleCompiler.Decimal | app.js:182 | the property name of an integer is a numeral: decimal digits, with a leading "-" for a negative number |
| ScheduleCompiler.SetDaypart | app.js:179-191 | storing one daypart fails iff the day has a device id named like the hour (the test at line 182 is false) and the device has no map for the hour. Otherwise the day keeps its device ids, other devices and the device's other hours are unchanged, and the hour maps the minute to the temperature, -1 included. When the day has no device id named like the hour, the hour map is recreated with only this minute. A daypart without an hour changes nothing |
| ScheduleCompiler.SetDayparts | app.js:179-192 | a device's daypart list never adds or removes device ids of the day |
| ScheduleCompiler.CleanDay | app.js:204-210 | a device survives cleanup iff it has some hour, with its hours unchanged |
| ScheduleCompiler.Clean | app.js:203-215 | a day survives iff its cleaned map is non-empty, and it holds exactly that cleaned map; the result has no empty day and no device without hours |
| ScheduleCompiler.UnscheduledZone | app.js:159-200 | a zone without an enabled plan or without heating devices leaves the table as it is, and compiling it amounts to compiling its children and then cleaning |
| ScheduleCompiler.CompileNoEmptyBranches | app.js:155-217 | a successful compile of a non-empty zone list leaves no empty day and no device without hours |
| ScheduleCompiler.DayHoursSpec | app.js:179-191 | `DayHours` holds an hour iff some daypart names it, and its map holds only the minute and temperature of the last such daypart |
| ScheduleCompiler.SetDaypartsNoNumeral | app.js:179-192 | with no numeral keys, a daypart list overlays the device's hours with `DayHours` and never fails |
| ScheduleCompiler.SetDevicesNoNumeral | app.js:172-193 | with no numeral ids, every listed device receives the same hour map and other devices keep theirs |
| CompileSpec.LastPlanSpec | app.js:164-166 | a day has a plan entry iff some entry names it, and the effective list is the last such entry's |
| CompileSpec.ExpandPlanSpec | app.js:164-194 | expanding a zone's plan equals `PlanTable`: each planned day gets the listed devices overwritten by the hours of its last entry |
| CompileSpec.ExpandZoneSpec | app.js:159-196 | expanding one zone equals `ZoneTable` and keeps device ids non-numeral |
| CompileSpec.CleanSweep | app.js:203-215 | cleaning before a sweep makes no difference once the result is cleaned |
| CompileSpec.CleanIdempotent | app.js:203-215 | cleaning twice is cleaning once |
| CompileSpec.CompileIsSweep | app.js:155-217 | the recursive compile with a cleanup after every zone equals one pre-order sweep over all zones followed by one cleanup, and never fails |
| CompileSpec.CompileLastWins | app.js:155-217 | the entry for a day and device is present iff the last zone in pre-order that writes it wrote a non-empty hour map, and then it is that map (a child overrides its parent) |
| CompileSpec.CompileOnlyTouched | app.js:155-217 | with no numeral device id, when every zone that writes a day writes only one device and the day was absent before, the compiled day holds at most that device |
| CompileSpec.CompileUntouched | app.js:155-217 | with no numeral device id, an entry that no zone writes survives a compile iff it had hours before, unchanged |
| CompileSpec.LastTouch | app.js:155-217 | finds the last zone in a sequence that writes a given day and device, or -1 |
| CompileSpec.CompileTwice | app.js:155-217 | compiling the compiled table again with the same zones, plans and index changes nothing |
| PollScheduler.WeekDay | app.js:146-149 | the weekday name is one of the seven two-letter names and distinct days get distinct names |
| PollScheduler.ElapsedSeconds | app.js:86 | the ceiling of the elapsed milliseconds divided by 1000 |
| PollScheduler.NeedsRefresh | app.js:84-90 | a refresh is due iff the stored update stamp differs from the live one or more than ten minutes have passed since the last refresh |
| PollScheduler.DueCommands | app.js:109-130 | the issued commands are exactly the due (device, temperature) pairs with temperature > 0, one per device |
| PollScheduler.SentinelNeverSent | app.js:123-126 | no issued command carries a temperature of -1 or lower, and nothing is issued on an unplanned day |
| App.ExpandDayparts | app.js:179-192 | the loop over a device's dayparts agrees with `SetDayparts`, failing exactly when it does |
| App.ExpandDevices | app.js:172-193 | the loop over a zone's devices agrees with `SetDevices` |
| App.HeatingSchedule.constructor | app.js:5-12 | the stored configuration is loaded and everything else starts empty |
| App.HeatingSchedule.AddToZone | app.js:237-245 | appends the zone id and registers the device under it |
| App.HeatingSchedule.AddDeviceToZone | app.js:225-230 | registers the device under its zone and then under every zone the parent walk finds |
| App.HeatingSchedule.AddDeviceToParentZones | app.js:253-267 | the loop over a zone sequence registers the device under exactly the zones `Walk` yields, in that order |
| App.HeatingSchedule.AddDeviceFromZone | app.js:256-265 | one loop iteration: children first, then the zone itself and its own ancestors when its id is the parent |
| App.HeatingSchedule.AddHeatingDevices | app.js:273-283 | the index and zone id list become `IndexDevices` of the old ones |
| App.HeatingSchedule.AddHeatingZones | app.js:288-323 | the zone map becomes the pruned forest, and the root survives iff it is kept |
| App.HeatingSchedule.ExpandZone | app.js:159-196 | the day loop agrees with `ExpandZone`, failing exactly when it does |
| App.HeatingSchedule.Cleanup | app.js:203-215 | the table becomes `Clean` of the old table |
| App.HeatingSchedule.PrepareScheduledDevices | app.js:155-217 | the recursive compile agrees with `Compile`, failing exactly when it does |
| App.HeatingSchedule.Refresh | app.js:50-77 | stores the devices, extends the index by `IndexDevices`, prunes the tree and compiles it into the old table; the update stamp moves to now only when the compile completes |
| App.HeatingSchedule.DoSchedule | app.js:82-131 | without a refresh due, nothing but `sent` changes and exactly the due commands are issued. With one due, the live config is adopted; if discovery has not answered, nothing is issued and every other field stays as it was. Otherwise the discovered tree is indexed, pruned and compiled into the old table. If the compile completes, the stamp moves to now and exactly the due commands of the new table are issued; otherwise nothing is issued and the stamp stays |
| Scenarios.IndexOfHome | app.js:273-283 | the thermostat is listed under its zone and under "home"; the lamp is listed nowhere |
| Scenarios.CompiledHome | app.js:155-217 | the living room's plan replaces the home's for the shared thermostat, and the -1 entry is stored |
| Scenarios.OnlyDevice | app.js:109-130 | with a single planned device, a tick issues exactly its positive due temperature or nothing |
| Scenarios.CompiledMonday | app.js:155-217 | the compiled Monday of the example holds exactly the thermostat, with the living room's hours |
| Scenarios.TicksOfMonday | app.js:109-130 | over a table whose Monday holds only the thermostat with 21 at 7:00 and -1 at 22:00, the 7:00 tick sends 21 and the 22:00 and 6:00 ticks send nothing |
| Scenarios.MondayTicks | app.js:82-131 | over the table compiled from the example, Monday 7:00 sends 21, 22:00 sends nothing for the stored -1, and 6:00 sends nothing because the child overrode the parent |
| Scenarios.SameHourKeepsLastMinute | app.js:182-190 | two dayparts in the same hour leave only the later one's minute |
| Scenarios.NumeralDeviceIdRaises | app.js:182-186 | a device id equal to the hour's name makes the test at line 182 false, so storing that hour for another device without an hour map raises |
| Scenarios.NumeralDeviceIdFailsCompile | app.js:172-190 | a zone planned for 7:00 whose device is named "7" makes the whole compile fail |

## Left out

- The HTTP layer (`api`, `request`, the local address and token gate) is left out. `updateTemperature` only appends to `sent`.
- `init`, `initScheduler`, `setInterval` and all logging are left out. The stored configuration, the zone query and the device list enter as parameters.
- Clocks: the current time, weekday, hour and minute are parameters.
- App.HeatingSchedule.DoSchedule: takes the outcome of the asynchronous discovery as a parameter. The nested tick after a refresh uses the same time as the outer one, and the same live configuration `live`; the source reads the stored configuration again at app.js:84. When discovery does not answer, the model issues nothing and leaves the table, the zone tree, the devices, the index and the update stamp as they were.
- ZonePruning.ChildrenToArray: keeps property order. The sort at app.js:315-317 uses a boolean comparator, so its result depends on the engine; the model leaves it out.
- ZonePruning.PruneZones: does not `delete` zones in place as app.js:296 does. It returns the pruned sequence, and `AddHeatingZones` assigns it to the `zones` field. No zone is shared with other state, so nothing observable differs.
- PollScheduler.DueCommands: states which commands are issued but not their order. The source follows property order of the device ids.
- App.HeatingSchedule.ExpandZone, App.HeatingSchedule.PrepareScheduledDevices, App.HeatingSchedule.Refresh and App.HeatingSchedule.DoSchedule: when the TypeError of line 186 occurs, the contract says nothing about the partly written table.
- CompileSpec.CompileLastWins, CompileSpec.CompileIsSweep, CompileSpec.CompileTwice, CompileSpec.CompileUntouched, CompileSpec.ExpandPlanSpec, CompileSpec.ExpandZoneSpec, ScheduleCompiler.SetDaypartsNoNumeral and ScheduleCompiler.SetDevicesNoNumeral: assume that no device id is a decimal numeral. Otherwise the test at line 182 can be false, and the table depends on it in ways the model covers only through `SetDaypart` and the two numeral scenarios.
- App.HeatingSchedule.AddDeviceToZone, App.HeatingSchedule.AddHeatingDevices, App.HeatingSchedule.Refresh and App.HeatingSchedule.DoSchedule: require a well-formed zone tree (`Forest.WellFormed`). That means three things. Zone ids are unique. Every child names its container as its parent. Every top-level zone has a falsy parent. The model does not cover trees that break these conditions. On such a tree the parent walk can recurse without end (app.js:229, 263). The root can also be pruned, which makes app.js:322 raise a TypeError. `AddHeatingZones` models that failure, but `Refresh` and `DoSchedule` never reach it, because the root's parent is falsy.
- JavaScript coercion is not modelled beyond truthiness of zone ids and the string names of hours. Examples are loose equality between numbers and strings and non-integer hours.
- A null live configuration (a TypeError at line 90) is not modelled. Neither is a configuration without a `schedule` member: a missing one counts as an empty map.
- Every daypart has a minute. A daypart without `minute` would be stored under the key "undefined".
- `assets/settings.js` and the settings page are not part of this model.

## Quirks of the code

The model follows the code as written in these places:

- The "no change" value -1 is stored like any temperature (app.js:190). The tick skips it because it sends only values above zero (app.js:123). See `Scenarios.CompiledHome` and `PollScheduler.SentinelNeverSent`.
- `schedule`, `zone2devices` and `heating_zone_ids` are never cleared (app.js:50-77), so they build up across refreshes. `App.HeatingSchedule.Refresh` compiles into the old table. `CompileSpec.CompileUntouched` shows that entries of a plan that has since been removed survive.
- The comparator of the child sort returns a boolean (app.js:315-317), so the resulting order depends on the engine.
- The test at app.js:182 looks for the hour among the day's device ids. As a result, two dayparts in the same hour keep only the later minute (`Scenarios.SameHourKeepsLastMinute`). A device named like a planned hour also makes the compile raise (`Scenarios.NumeralDeviceIdFailsCompile`).
- Every zone with a falsy parent is kept, whether or not it holds a heating device (app.js:295).
- Cleanup runs after every zone (app.js:203-215), inside the zone loop. `CompileSpec.CompileIsSweep` shows that the final table equals one cleanup after the whole sweep.
