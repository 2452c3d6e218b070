# Verification model of ops-fand

ops-fand keeps the fans of a switch at the right speed. It mirrors the Subsystem rows of the
database in a table of records, arbitrates for each subsystem between the speed its
temperature sensors ask for and a configured override, writes the resulting setting to the
speed registers, shows fan health on LEDs, polls every fan, and writes the readings back to
the Fan rows. This project models that loop and proves what it keeps.

The class `FanDaemon.Fand` holds the daemon's globals as fields: both string hashes, the
database replica, the two sequence numbers, `cur_hw_set`. Subsystem and fan records are heap
objects that its methods update in place. The hardware layer (`PhysFan`) works on the same
objects and on an I2C bus object. Every method is proved against pure functions, and the
properties of whole runs are proved about those functions:

* `Snapshot.After` is the table that a history of processed database snapshots determines.
  `Fand.Valid`, which holds after every turn of the main loop for any behaviour of the
  environment (`Fand.Serve`), says that the real table is that one.
* `Database.DbPassed` is the database after a pass over its subsystem rows; `Linked` says which
  Fan rows are referenced by whom.
* `Runs.WorldAfter` is the state of a whole run, up to the contents of Fan rows, as a function of the
  initial database and of the events. `Fand.Traced` says that the real database and history are those.
* `Controls.SpeedWrites` and `Controls.LedWrites` are the register writes of one speed change and
  of one LED pass; a register holds the last value written to it.
* `Readings.Poll` is what one poll records for a fan.

## How C is rendered

* A string hash is a sequence of nodes that may hold equal keys. A node is inserted at an
  arbitrary place, so nothing depends on iteration order. `Shash.Lists` says that a hash
  contains each node of a set once; that keys are unique is proved at every insertion.
* The ghost fields `subsystems` and `fans` are the nodes of the live records: a record joins when
  it is allocated and leaves when it is freed, and a record that is not in the set cannot be
  freed. `Fand.IndexesAgree` says that both hashes reach exactly those records. The fields of a
  record that are set once (`name`, the back pointer, `yaml_fan`) are constants; `status`, `rpm`,
  `direction` and `speed` of a new fan record are arbitrary, as after `malloc`.
* The config-yaml library is a function from subsystem names to load outcomes, immutable over
  time. A pointer to a described fan is the description with its address.
* Arithmetic on the speed counter is in 32 bits with wrap-around.
* Events of the environment are arguments: a turn of the loop receives new subsystem and daemon rows
  or none, the state of the lock, and the register contents of its poll. Subsystem rows that are the
  same rows as before keep their `fans` column; Fan rows that no subsystem references disappear at
  each change.
* The sync dereferences the result of an unchecked lookup (src/fand.c:452-453). When there is no
  record, the process ends: the methods return `crashed`, and what the sync had staged is never
  committed.
* Commits come back as a new database version after an arbitrary number of further changes of
  the sequence number, so the pass that follows may or may not be skipped.

## Assumptions

* Names of subsystem rows are distinct, as the code itself demands (src/fand.c:393-397), and no two
  Fan rows of the initial database share a name.
* No other process writes Fan rows or the `fans` column of subsystem rows, also while this process
  does not hold the lock.
* Full fan names are unique (`Naming.NamesDistinct`). `Naming.NamesDistinctFromNaming` derives this
  from distinct fan names per subsystem when no subsystem name continues another one with a dash.
* Speed registers of different subsystems, and speed registers and LEDs, are disjoint, and register
  writes succeed (`Controls.RegistersDisjoint`).

## What does not hold

Each of these has its exact condition and an input that shows it.

* The sync can meet a Fan row without a record: a row whose subsystem is neither resident nor loadable
  keeps its Fan rows. `Database.PassResolvesExactly` and `Fand.Run` say exactly when,
  `Runs.RestartFails` is a daemon restarted on a subsystem without description directory, and
  `Runs.RunNeverFails` says that no run fails that starts its first pass without such a row.
* A resident subsystem can be without Fan rows for good: its row was replaced by a new row of the same
  name, which is not added again. `Fand.FansColumnExactly` and `Runs.FanRowExistsExactly` say exactly
  when, `Runs.ReplacedRowLosesFans` is such a turn.
* Maintenance and rebuild can differ: a resident subsystem outlives its description directory
  (`Snapshot.RunEqualsRebuildExactly`, `Snapshot.MaintenanceOutlivesDescription`).
* Full names need not be unique: `Naming.NamesCollideExactly`. Then the sweep, which deletes by name,
  can free a fan and leave it in the flat index, exactly when a fan that goes shares its name with one
  that stays (`Indexes.SweepRightExactly`; "a" with "b-c" and "a-b" with "c" in
  `Indexes.SweepCanKeepFreedFan`).
* The lookup by short name misses long names: `Controls.LookupFindsExactly`, with an order for every such name from `Controls.LookupMisses`.

## Where comments and code differ

* src/fand.c:152 announces a default for a missing description directory; the code gives up on
  the subsystem instead. The model gives up.
* Without sensors the sensor speed becomes "slow" (src/fand.c:522), not the "normal" of a new
  record (src/fand.c:150), which lasts only for the provisional write.
* DESIGN.md sets LEDs on every turn of the loop; the code sets them only when a changed database is
  processed, from the statuses cached at that moment. The model follows the code.

## Model

| member | source | states |
|---|---|---|
| FanDaemon.Fand.Serve | src/fand.c:673-683 | for every sequence of events: the loop ends early exactly if some turn fails in the sense of `Runs.Fails`, at the first such turn; the processed snapshots are exactly the ones current at the turns that hold the lock, and everything in `Valid` and `Traced` holds afterwards; after a turn with the lock the rows show the registers of that turn |
| FanDaemon.Fand.Run | src/fand.c:561-583 | one turn: without the lock nothing but the replica changes; with it the tables reflect the current snapshot and the rows are those of one pass over it; the process ends exactly if a stranded row references a Fan row that no resident describes; otherwise every Fan row shows the polled cache, and its speed string reads back as the speed configured by its subsystem's row in the last processed snapshot |
| FanDaemon.Fand.Turn | src/fand.c:561-583 | database and history stay those that `Runs.WorldAfter` computes from the initial database and the events, and the rows show the registers of the turn |
| FanDaemon.Fand.Reconfigure | src/fand.c:501-559 | the sequence-number gate is transparent: skipped or not, the table is the one for the history with this snapshot added; a closed gate writes no register, and if the snapshot was already processed, records, fan index and database stay as they were |
| FanDaemon.Fand.ReconfigureNow | src/fand.c:513-559 | processing a snapshot again without the gate: residents named by a row keep their record, only new subsystems bring new fan records, and the database is the result of one pass |
| FanDaemon.Fand.ApplySnapshot | src/fand.c:515-558 | mark, update, sweep together: all records left are valid and marked, and the table is exactly the rows that were resident or load now, each with the contents its row asks for; subsystems that fail to load are added and swept in the same pass |
| FanDaemon.Fand.ProcessRow | src/fand.c:517-555 | one row: its record is updated and marked exactly if usable, all other records are untouched, and the register writes are the provisional speed (if new), the configured speed, then the LEDs |
| FanDaemon.Fand.UpdateSubsystem | src/fand.c:531-554 | sensor maximum, override, speed and LED writes of one resident subsystem, leaving all other subsystems' registers in order |
| FanDaemon.Fand.GetSubsystem | src/fand.c:283-302 | returns the one record of that name without any change, or adds it; null exactly for an unusable subsystem |
| FanDaemon.Fand.AddSubsystem | src/fand.c:115-279 | a new subsystem joins the table whether or not it loads, is valid exactly if every load step succeeds, gets a record per described fan and, in one commit, a Fan row per described fan, and drives its fans at the provisional speed |
| FanDaemon.Fand.LoadSubsystem | src/fand.c:152-276 | the chain of load failures leaves tables and database alone; success gives fans, rows and the provisional register writes |
| FanDaemon.Fand.AddFans | src/fand.c:229-269 | the nested loops add exactly one fresh record per described fan to both indexes, and provide the rows in description order |
| FanDaemon.Fand.AddFanRecord | src/fand.c:243-250 | adding to the subsystem's hash and to the flat hash without a check keeps both in agreement, because the name is new |
| FanDaemon.Fand.ProvisionRow | src/fand.c:252-267 | reuses the row of that name or inserts one, resets its columns, and appends it to the fan array |
| FanDaemon.Fand.LookupFan | src/fand.c:99-111 | the first Fan row of that name, or none |
| FanDaemon.Fand.RemoveUnmarkedSubsystems | src/fand.c:319-351 | for any marking: the deleting iteration terminates, leaves exactly the marked subsystems unchanged, removes from the flat index exactly the fans of the others, and frees each removed record once |
| FanDaemon.Fand.RemoveSubsystem | src/fand.c:329-345 | frees a subsystem and exactly its fans, keeping the indexes in agreement; the flat index is what deleting by name leaves |
| FanDaemon.Fand.RemoveHead | src/fand.c:332-340 | deleting by name from the flat index hits the very record that is freed |
| FanDaemon.Fand.UnmarkSubsystems | src/fand.c:304-314 | unmarks every record of the table |
| FanDaemon.Fand.RegistersObeyRow | src/fand.c:524-555 | between any two turns every speed control of every resident subsystem holds: the "max" setting if a sensor in its row says so; else the setting of the level that the override names; else that of the highest level among its sensors, "slow" without any |
| FanDaemon.Fand.ProvisionalSetting | src/fand.c:137-276 | while a subsystem is added its controls get the setting of the level that the override names, else the normal one |
| FanDaemon.Fand.FlatIndexNames | src/fand.c:249-250 | the names in the flat index are exactly those described for the subsystems that the processed snapshots leave resident |
| FanDaemon.Fand.FanRowsSound | src/fand.c:450-453 | no two Fan rows share a name, and every lookup of a Fan row succeeds exactly if each is that of a described fan of a subsystem that the history leaves resident |
| FanDaemon.Fand.LookupsResolveExactly | src/fand.c:450-453 | every Fan row finds its record exactly if each is described by a resident subsystem |
| FanDaemon.Fand.FansColumnExactly | src/fand.c:252-271 | in every state of a run: the fans column of a resident's row names one Fan row per described fan, in description order, if the row has been kept since the subsystem was loaded, and is empty otherwise |
| FanDaemon.Fand.FanRowExists | src/fand.c:252-271 | when the first pass found no stranded row: the Fan row of a resident's described fan exists exactly if the subsystem's row has been kept since the subsystem was loaded |
| FanDaemon.Fand.PollFans | src/fand.c:434-444 | every record of every subsystem is refreshed, with its subsystem's effective speed |
| FanDaemon.Fand.ReadStatus | src/fand.c:423-493 | poll, then sync: fails exactly if some Fan row is not described by a resident, and then changes no row; otherwise every row shows its record, the staged writes are exactly the differing columns plus at most one `cur_hw`, and there is a commit exactly when something was staged |
| FanDaemon.Fand.FanRowSpeed | src/fand.c:440-464 | after a turn with the lock the speed of a Fan row is "max" if a sensor in its subsystem's row says so, else the override string itself if it names a level, else the highest level among the sensors |
| FanDaemon.Fand.FanRowHealth | src/fand.c:455-468 | and its status is "fault" exactly if the FRU is absent or the fault bit set, "ok" exactly if present and clear, "uninitialized" exactly if present and unreadable; its direction is what the FRU's detection register and the description say |
| FanDaemon.Fand.FanRowRpm | src/fand.c:469-473 | and its rpm is 0 for an absent FRU or a failed read, else the count times the multiplier, or the numerator divided by the count, or the count |
| FanDaemon.Fand.PollAgain | src/fand.c:446-490 | after a turn with the lock, a second poll with the same registers stages and commits nothing and leaves everything as it was |
| FanDaemon.Fand.SyncRows | src/fand.c:449-474 | fails exactly if a row has no record, and then changes nothing; otherwise all rows are in line with the cache, with the list of staged writes |
| FanDaemon.Fand.StageRow | src/fand.c:455-473 | one row against one record: every column of its new contents, and the columns staged |
| FanDaemon.Fand.SetCurHw | src/fand.c:476-486 | `cur_hw` is written once, in the first daemon row of the daemon's own name, as soon as there is one; no other daemon row changes |
| FanDaemon.Fand.ResidentLookup | src/physfan.c:36-53 | for a resident subsystem and a described fan with a full name of at most 127 characters, the lookup returns the one record of that fan |
| FanDaemon.Fand.FruLedShowsHealth | src/physfan.c:55-120 | after an LED pass the LED of each FRU holds the fault code if a record of one of its fans has a status above ok, else the good code if one is ok, else the off code |
| FanDaemon.Fand.SubsystemLedShowsHealth | src/physfan.c:55-120 | and the LED of the subsystem the same about all its records |
| FanDaemon.Fand.ResidentHasFru | src/physfan.c:419-431 | the presence read never meets a missing FRU |
| Snapshot.RunEqualsRebuildExactly | src/fand.c:501-559 | over a whole run, incremental maintenance equals a rebuild from the last snapshot if and only if every row of it that has been resident until now would load now |
| Snapshot.RowSpeedByName | src/fand.c:531-548 | the level of a row, from its sensor and override strings alone |
| Snapshot.MaintenanceOutlivesDescription | src/fand.c:289-299 | two snapshots after which maintenance and rebuild differ |
| Snapshot.IncrementalEqualsRebuild | src/fand.c:501-559 | if loading is a fixed fact of a name, incremental maintenance always equals the rebuild |
| Snapshot.ResidencyExactly | src/fand.c:515-558 | a name is resident exactly if its row loaded in some processed snapshot and has been listed in every processed one since |
| Snapshot.GateIsTransparent | src/fand.c:509-513 | one more pass over an unchanged snapshot gives the same table |
| Database.PassSettles | src/fand.c:517-555 | when no row is stranded, after a pass only resident subsystems reference Fan rows, and every lookup succeeds |
| Database.PassResolvesExactly | src/fand.c:450-453 | after a pass every Fan row is that of a described fan of a resident subsystem, if and only if this holds for the Fan rows that stranded rows referenced before the pass |
| Database.AddFanRowsLinked | src/fand.c:252-272 | one subsystem's transaction keeps row names and identifiers unique, every row referenced, and other subsystems' references intact |
| Database.ProvisionAllOk | src/fand.c:252-267 | the fan array names, position by position, the one row of each described fan |
| Database.ProvisionAllContents | src/fand.c:259-265 | exactly the named rows become "uninitialized", "f2b" and "normal" and keep their rpm; all others stay |
| Database.StrandedKeeps | src/fand.c:152-193 | what a stranded row references after a pass is what it referenced before, under the same names |
| Database.PassOnRow | src/fand.c:252-272 | a row that becomes resident in a pass is complete from its turn on, every other row keeps its fans column and the Fan rows in it |
| Database.UpdateLinked | src/fand.c:392-404 | changes by other processes keep row names and identifiers unique, every row referenced, and residents' references described |
| Database.DiffExactly | src/fand.c:455-473 | a column is staged exactly when it differed |
| Database.DiffEmpty | src/fand.c:448-490 | nothing is staged exactly when nothing differed |
| Runs.WorldFollowsEvents | src/fand.c:501-583 | the snapshots processed in a run are exactly those current at the turns with the lock |
| Runs.RunNeverFails | src/fand.c:450-453 | no lookup fails in any turn of any run whose first pass finds every referencing row loadable, whatever happens to rows and descriptions later |
| Runs.RestartFails | src/fand.c:450-453 | the initial database on which the first turn fails, for any descriptions |
| Runs.RowsCompleteExactly | src/fand.c:252-299 | over a whole run: the fans column of a resident's row is complete if the row has been kept since it was loaded, and empty otherwise |
| Runs.FanRowExistsExactly | src/fand.c:252-299 | over a whole run whose first pass found no stranded row: a described fan of a resident has its Fan row if and only if the subsystem's row has been kept since it was loaded |
| Runs.ReplacedRowLosesFans | src/fand.c:289-299 | the turn after which a resident subsystem has no Fan rows |
| Naming.NameSplits | src/fand.c:243 | splitting a full name at the first dash recovers both parts when subsystem names hold no dash |
| Naming.NamesCollideExactly | src/fand.c:243 | two subsystems can share a full name, with non-empty fan names, if and only if one name continues the other with a dash |
| Naming.NamesDistinctFromNaming | src/fand.c:243-250 | uniqueness of all full names from distinct fan names and subsystem names that do not continue each other |
| Shash.FindListed | src/fand.c:334 | with unique keys, finding by key finds the node itself |
| Shash.FindsOwnNodeExactly | src/fand.c:334 | finding by key finds the node itself for every iteration order if and only if no other node has its key |
| Shash.InsertedLists | src/fand.c:249-250 | insertion at any place adds exactly the new node |
| Shash.DeletedLists | src/fand.c:335-337 | deletion removes exactly the given node |
| Shash.DeletesByKeyExactly | src/fand.c:334-335 | deleting nodes by key leaves exactly the others, for every iteration order, if and only if no deleted node shares its key with one that stays |
| Indexes.SweepRightExactly | src/fand.c:319-351 | dropping subsystems by fan names leaves exactly the fans of the others in the flat index if and only if no dropped fan shares its full name with one that stays |
| Indexes.SweepCanKeepFreedFan | src/fand.c:319-351 | two subsystems for which the freed fan stays in the flat index and the live one goes |
| FanSpeed.StringToEnum | src/fanspeed.c:38-55 | the value whose name the string is, NONE for anything else |
| FanSpeed.ParseAfterPrint | src/fanspeed.c:39-66 | printing and parsing back is the identity on the five levels and NORMAL elsewhere |
| FanSpeed.PrintAfterParse | src/fanspeed.c:39-66 | a string survives parsing and printing exactly if it names a level |
| FanSpeed.LevelsOfNames | src/fanspeed.c:28-66 | the five names, in ascending order of level, and nothing else parse to a level |
| FanSpeed.HighestSensor | src/fand.c:522-539 | the loop computes the sensor maximum |
| FanSpeed.SensorMaxIsLeastUpperBound | src/fand.c:522-541 | the recorded speed is the least upper bound of the parsed states with floor SLOW |
| FanSpeed.SensorMaxMonotone | src/fand.c:531-541 | adding sensors never lowers the recorded speed |
| FanSpeed.SensorMaxOrderFree | src/fand.c:531-541 | the order of the sensors does not matter |
| FanSpeed.HighestByName | src/fand.c:531-541 | the recorded speed is the highest of the named levels among the sensors, "slow" without any |
| FanSpeed.ArbitrationIsSafe | src/physfan.c:127-140 | the effective speed is within SLOW..MAX, monotone in the sensors, MAX whenever a sensor says so, otherwise the override if it names a level, else the sensor maximum |
| FanStatus.PrintStatusInjective | src/fanstatus.c:55-61 | equal strings mean equal statuses, out-of-range values counting as uninitialized |
| PhysFan.SetFanSpeed | src/physfan.c:122-238 | records the arbitrated speed and appends exactly the writes of its setting to the controls of the description's level |
| PhysFan.WriteControls | src/physfan.c:200-237 | the three layouts write to all non-null controls of their level in description order, an invalid type to none |
| Controls.SpeedControlsExact | src/physfan.c:200-237 | a register is written exactly if the description names it at that level |
| Controls.SpeedControlsInOrder | src/physfan.c:209-237 | the order of writes between FRUs is the order of the description |
| Controls.FanControlsInOrder | src/physfan.c:222-233 | per fan, the order of writes is that of all fans of the description, within a FRU and across FRUs |
| Controls.SpeedWritesHold | src/physfan.c:142-237 | after the writes every control holds the setting of the level, field by field |
| Controls.SettingByName | src/physfan.c:150-198 | each level selects the setting of its own name |
| Controls.WritesAreAddressed | src/physfan.c:206-228 | speed and LED writes go to the subsystem they are for |
| Controls.OtherSpeedWritesKeep | src/physfan.c:200-237 | speed changes of other subsystems leave the controls alone |
| Controls.LedWritesKeep | src/physfan.c:55-120 | LED passes leave the controls alone |
| PhysFan.GetLocalFan | src/physfan.c:36-53 | the first record of the truncated name, else the last record visited, null for an empty hash |
| Controls.LookupExactly | src/physfan.c:41-52 | the first 127 characters are compared; the first record that matches them is found, else the last one |
| Controls.LookupFindsExactly | src/physfan.c:41-52 | the lookup is right for every iteration order if and only if the full name fits 127 characters or there is no other record |
| PhysFan.SetFanLeds | src/physfan.c:76-120 | appends exactly the LED writes for the statuses seen through the lookup |
| Controls.WorstStatusIsLeast | src/physfan.c:89-98 | the status of a FRU is the least bound of the cached statuses of its fans |
| Controls.WorstFruStatusIsLeast | src/physfan.c:88-100 | the aggregate is the least bound over all fans of all FRUs |
| Controls.SummaryLedOrderFree | src/physfan.c:76-120 | the aggregate does not depend on iteration order, FRU order or grouping |
| PhysFan.FanFruGet | src/physfan.c:349-370 | the nested search returns the first FRU that lists the fan |
| Readings.OwnerExact | src/physfan.c:349-370 | it finds one exactly for described fans, and the FRU it finds lists the fan |
| PhysFan.ReadFanStatus | src/physfan.c:419-448 | one poll of one described fan records exactly the sample of its registers |
| Readings.PollStatusExactly | src/physfan.c:397-447 | fault exactly if the FRU is absent or the fault bit is set, ok exactly if present and clear, uninitialized exactly if present and unreadable |
| Readings.PollDirectionExactly | src/physfan.c:306-395 | "b2f" exactly if the detection register is readable and zero for a nonzero front-to-back value or the other way round, else "f2b" |
| Readings.PollRpmExactly | src/physfan.c:429-445 | the recorded speed from registers, multiplier and numerator, in every case of presence, failed reads and constants |
| Readings.FruMatesAgree | src/physfan.c:372-431 | fans of one FRU report one direction, and all the same sample if the FRU is absent |
| PhysFan.ReadRpm | src/physfan.c:240-277 | low byte plus shifted high byte in unsigned 32 bits, read back as signed, 0 on any failed read |
| Readings.RawCountBytes | src/physfan.c:257-276 | byte-valued registers give a count in 0..65535 that splits back into its bytes |
| Readings.RawCountModulo | src/physfan.c:257-276 | for any register contents the count is the low byte plus the shifted high byte up to a multiple of 2^32 |
| Readings.ProductFits | src/physfan.c:434-435 | the product is exact for every two-byte count if and only if the multiplier's magnitude is at most 32768 |
| Readings.QuotientBounds | src/physfan.c:436-441 | with a positive numerator the quotient q satisfies q*raw <= numerator < (q+1)*raw, and a zero count gives zero |
| Readings.NegativeQuotientBounds | src/physfan.c:436-441 | a negative numerator is divided with truncation towards zero |
| Readings.QuotientAntitone | src/physfan.c:436-441 | a larger count never gives a larger speed |
| Bus.RegisterSet | src/physfan.c:206-228 | a register holds the value of the last write to it |

## Left out

- Failed or retried commits and failed register writes: the code ignores them; final contents are claimed for commits and writes that succeed.
- Changes by other processes in the middle of a blocking commit: a pass sees one snapshot.
- A second instance that writes Fan rows while this one does not hold the lock.
- Register contents changing in the middle of one poll: all reads of a poll see one set of register contents; different polls see arbitrary ones.
- Positive return codes of a presence read, after which the code uses an uninitialised value.
- Masks, shifts and bus addressing inside the I2C library, and parsing of the description files: library code that is not part of this repository.
- Signed overflow of the scaled speed beyond wrap-around: undefined in C.
- Start-up, options, sockets, the dump and exit commands, logging and events: no effect on the state modelled here.
- src/cli: sets or removes one configuration key and prints.
- String to enum conversion for statuses and directions: not used by the daemon.
- The parent pointer of a subsystem record: always null in the code.
