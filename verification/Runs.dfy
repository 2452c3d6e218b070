/** Whole runs of the main loop, as a function of the initial database and of what the environment does.

    A run is followed up to the contents of Fan rows: which rows there are, who references them, and
    which snapshots have been processed. The hardware does not matter to that.
 */
module Runs {
  import opened Platform
  import opened Database
  import Snapshot
  import Naming
  import Readings

  /** One turn of the main loop as its environment decides it. */
  datatype Event = Event(update: Option<Update>, contended: bool, hasLock: bool, hw: Readings.Hw)

  /** Whether the turn gets past the check of the lock. */
  predicate Locked(event: Event) {
    event.hasLock && !event.contended
  }

  ghost predicate UpdatesOk(events: seq<Event>) {
    forall i :: 0 <= i < |events| && events[i].update.Some? ==> DistinctNames(events[i].update.value.configs)
  }

  // ----- the processed snapshots -----

  /** The subsystem rows after these events. */
  function ConfigsAfter(configs: seq<Config>, events: seq<Event>): seq<Config> {
    if |events| == 0 then configs
    else
      var last := events[|events| - 1];
      if last.update.Some? then last.update.value.configs else ConfigsAfter(configs, events[..|events| - 1])
  }

  /** The snapshots that a run processes: the current one at every turn that holds the lock. */
  function ProcessedBy(configs: seq<Config>, events: seq<Event>): seq<seq<Config>> {
    if |events| == 0 then []
    else ProcessedBy(configs, events[..|events| - 1]) +
         if Locked(events[|events| - 1]) then [ConfigsAfter(configs, events)] else []
  }

  // ----- the state of a run -----

  datatype World = World(db: Db, history: seq<seq<Config>>)

  ghost function Resident(yaml: Yaml, w: World): set<string> {
    Snapshot.After(yaml, w.history).Keys
  }

  ghost function Step(yaml: Yaml, w: World, event: Event): World {
    var db := Received(w.db, event.update);
    if Locked(event) then World(DbPassed(yaml, db, Resident(yaml, w)), w.history + [Configs(db)])
    else World(db, w.history)
  }

  ghost function WorldAfter(yaml: Yaml, db: Db, events: seq<Event>): World {
    if |events| == 0 then World(db, [])
    else Step(yaml, WorldAfter(yaml, db, events[..|events| - 1]), events[|events| - 1])
  }

  lemma OneMoreTurn(yaml: Yaml, db: Db, events: seq<Event>, event: Event)
    ensures WorldAfter(yaml, db, events + [event]) == Step(yaml, WorldAfter(yaml, db, events), event)
    ensures ConfigsAfter(Configs(db), events + [event]) ==
            if event.update.Some? then event.update.value.configs else ConfigsAfter(Configs(db), events)
    ensures ProcessedBy(Configs(db), events + [event]) ==
            ProcessedBy(Configs(db), events) + if Locked(event) then [ConfigsAfter(Configs(db), events + [event])] else []
  {
    assert (events + [event])[..|events|] == events;
  }

  /** The world processes exactly the snapshots that the events dictate, and lists their subsystems. */
  lemma {:induction false} WorldFollowsEvents(yaml: Yaml, db: Db, events: seq<Event>)
    ensures WorldAfter(yaml, db, events).history == ProcessedBy(Configs(db), events)
    ensures Configs(WorldAfter(yaml, db, events).db) == ConfigsAfter(Configs(db), events)
  {
    if |events| > 0 {
      var n := |events| - 1;
      WorldFollowsEvents(yaml, db, events[..n]);
      var w := WorldAfter(yaml, db, events[..n]);
      var received := Received(w.db, events[n].update);
      DbAfterConfigs(yaml, received, Resident(yaml, w), Configs(received), |received.subsystems|);
    }
  }

  lemma StepResident(yaml: Yaml, w: World, event: Event)
    requires DistinctNames(Configs(Received(w.db, event.update)))
    ensures Resident(yaml, Step(yaml, w, event)) ==
            if Locked(event) then Residents(yaml, Resident(yaml, w), Configs(Received(w.db, event.update)))
            else Resident(yaml, w)
  {
    if Locked(event) {
      var configs := Configs(Received(w.db, event.update));
      Snapshot.AfterOneMore(yaml, w.history, configs);
      Snapshot.ReconfiguredNames(yaml, Resident(yaml, w), configs);
    }
  }

  ghost predicate WorldOk(yaml: Yaml, w: World) {
    Linked(yaml, w.db, Resident(yaml, w)) && Snapshot.AllDistinct(w.history)
  }

  lemma StepOk(yaml: Yaml, w: World, event: Event)
    requires WorldOk(yaml, w) && (event.update.Some? ==> DistinctNames(event.update.value.configs))
    ensures WorldOk(yaml, Step(yaml, w, event))
    ensures Linked(yaml, Received(w.db, event.update), Resident(yaml, w))
    ensures DistinctNames(Configs(Received(w.db, event.update)))
  {
    hide Linked, Resident, DistinctNames;
    var db := Received(w.db, event.update);
    ReceivedLinked(yaml, w.db, Resident(yaml, w), event.update);
    LinkedDistinct(yaml, db, Resident(yaml, w));
    StepResident(yaml, w, event);
    PassLinked(yaml, db, Resident(yaml, w));
  }

  lemma {:induction false} RunOk(yaml: Yaml, db: Db, events: seq<Event>)
    requires Linked(yaml, db, {}) && UpdatesOk(events)
    ensures WorldOk(yaml, WorldAfter(yaml, db, events))
  {
    hide Linked, DistinctNames, Step;
    if |events| == 0 {
      assert Resident(yaml, World(db, [])) == {};
    } else {
      var n := |events| - 1;
      RunOk(yaml, db, events[..n]);
      StepOk(yaml, WorldAfter(yaml, db, events[..n]), events[n]);
    }
  }

  // ----- lookups that fail -----

  /** In turn `i` the sync meets a Fan row without a record. */
  ghost predicate Fails(yaml: Yaml, db: Db, events: seq<Event>, i: nat)
    requires i < |events|
  {
    Locked(events[i]) && FailsNow(yaml, WorldAfter(yaml, db, events[..i]), events[i])
  }

  ghost predicate FailsNow(yaml: Yaml, w: World, event: Event) {
    !Resolvable(yaml, Received(w.db, event.update), Resident(yaml, w))
  }

  /** Turn number `n` of these events, and whether it fails, whatever comes later. */
  lemma NextTurn(yaml: Yaml, db: Db, before: seq<Event>, events: seq<Event>, n: nat)
    requires n < |events|
    ensures before + events[..n] + [events[n]] == before + events[..n + 1]
    ensures |before + events[..n]| == |before| + n < |before + events|
    ensures Fails(yaml, db, before + events[..n + 1], |before| + n) == Fails(yaml, db, before + events, |before| + n)
  {
    assert (before + events)[..|before| + n] == (before + events[..n + 1])[..|before| + n];
  }

  lemma EventOk(events: seq<Event>, i: nat)
    requires UpdatesOk(events) && i < |events|
    ensures events[i].update.Some? ==> DistinctNames(events[i].update.value.configs)
  {
  }

  /** The first turn that holds the lock finds no stranded row. */
  ghost predicate FirstPassLoads(yaml: Yaml, db: Db, events: seq<Event>) {
    forall i, row ::
      (0 <= i < |events| && Locked(events[i]) && (forall j :: 0 <= j < i ==> !Locked(events[j]))
       && row in Received(WorldAfter(yaml, db, events[..i]).db, events[i].update).subsystems) ==>
        !Stranded(yaml, {}, row)
  }

  /** If every row that references Fan rows at the first turn with the lock can be loaded, no
      lookup ever fails, whatever happens to rows and descriptions later. */
  lemma RunNeverFails(yaml: Yaml, db: Db, events: seq<Event>, i: nat)
    requires Linked(yaml, db, {}) && UpdatesOk(events) && FirstPassLoads(yaml, db, events) && i < |events|
    ensures !Fails(yaml, db, events, i)
  {
    hide Linked, DistinctNames, Resolvable;
    SettledOnceLocked(yaml, db, events, i);
    RunOk(yaml, db, events[..i]);
    var w := WorldAfter(yaml, db, events[..i]);
    StepOk(yaml, w, events[i]);
    if Locked(events[i]) {
      NothingStranded(yaml, db, events, i);
      PassSettles(yaml, Received(w.db, events[i].update), Resident(yaml, w));
    }
  }

  lemma NothingStranded(yaml: Yaml, db: Db, events: seq<Event>, i: nat)
    requires FirstPassLoads(yaml, db, events) && i < |events| && Locked(events[i])
    requires (exists j :: 0 <= j < i && Locked(events[j])) ==>
               Settled(WorldAfter(yaml, db, events[..i]).db, Resident(yaml, WorldAfter(yaml, db, events[..i])))
    requires (forall j :: 0 <= j < i ==> !Locked(events[j])) ==> WorldAfter(yaml, db, events[..i]).history == []
    ensures var w := WorldAfter(yaml, db, events[..i]);
            forall row :: row in Received(w.db, events[i].update).subsystems ==> !Stranded(yaml, Resident(yaml, w), row)
  {
    hide Loads, WorldAfter;
    var w := WorldAfter(yaml, db, events[..i]);
    if j :| 0 <= j < i && Locked(events[j]) {
      UpdateSettled(w.db, Resident(yaml, w), events[i].update);
    } else {
      assert Resident(yaml, w) == {};
    }
  }

  /** From the first turn with the lock on, only resident subsystems reference fans. */
  lemma {:induction false} SettledOnceLocked(yaml: Yaml, db: Db, events: seq<Event>, n: nat)
    requires Linked(yaml, db, {}) && UpdatesOk(events) && FirstPassLoads(yaml, db, events) && n <= |events|
    ensures var w := WorldAfter(yaml, db, events[..n]);
            && ((exists j :: 0 <= j < n && Locked(events[j])) ==> Settled(w.db, Resident(yaml, w)))
            && ((forall j :: 0 <= j < n ==> !Locked(events[j])) ==> w.history == [])
  {
    hide Linked, DistinctNames, Settled, FirstPassLoads, Loads, Resident;
    if n > 0 {
      var i := n - 1;
      SettledOnceLocked(yaml, db, events, i);
      RunOk(yaml, db, events[..i]);
      assert events[..n] == events[..i] + [events[i]];
      OneMoreTurn(yaml, db, events[..i], events[i]);
      var w := WorldAfter(yaml, db, events[..i]);
      StepOk(yaml, w, events[i]);
      StepResident(yaml, w, events[i]);
      if Locked(events[i]) {
        NothingStranded(yaml, db, events, i);
        PassSettles(yaml, Received(w.db, events[i].update), Resident(yaml, w));
      } else {
        assert forall j :: 0 <= j < n && Locked(events[j]) ==> j < i;
        if exists j :: 0 <= j < i && Locked(events[j]) {
          UpdateSettled(w.db, Resident(yaml, w), events[i].update);
        }
      }
    }
  }

  /** A daemon that restarts on a row without a description directory fails in its first turn. */
  lemma RestartFails(yaml: Yaml, hw: Readings.Hw)
    ensures var db := Db([SubsystemRow(Config("base", None, map[], []), [0])], [DefaultRow(0, "base-1", None)], [], 1);
            Linked(yaml, db, {}) && Fails(yaml, db, [Event(None, false, true, hw)], 0)
  {
    var db := Db([SubsystemRow(Config("base", None, map[], []), [0])], [DefaultRow(0, "base-1", None)], [], 1);
    var events := [Event(None, false, true, hw)];
    StrandedRowFindsNoRecord(yaml);
    assert events[..0] == [] && Resident(yaml, World(db, [])) == {};
    PassResolvesExactly(yaml, db, {});
  }

  // ----- Fan rows that exist -----

  /** The subsystem becomes resident in turn `j`. */
  ghost predicate LoadedIn(yaml: Yaml, db: Db, events: seq<Event>, j: nat, name: string)
    requires j < |events|
  {
    && Locked(events[j])
    && name !in Resident(yaml, WorldAfter(yaml, db, events[..j]))
    && name in Resident(yaml, WorldAfter(yaml, db, events[..j + 1]))
  }

  /** The row of this subsystem is still listed, and the same row, after the turn's update. */
  predicate KeptIn(event: Event, name: string) {
    event.update.Some? ==> name in event.update.value.kept && name in Snapshot.Names(event.update.value.configs)
  }

  /** The subsystem became resident in some turn, and its row has been the same row ever since. */
  ghost predicate KeptSinceLoaded(yaml: Yaml, db: Db, events: seq<Event>, name: string) {
    exists j :: 0 <= j < |events| && LoadedIn(yaml, db, events, j, name) && KeptFrom(events, j + 1, name)
  }

  ghost predicate KeptFrom(events: seq<Event>, j: nat, name: string) {
    forall k :: j <= k < |events| ==> KeptIn(events[k], name)
  }

  /** How one more turn changes the condition. */
  lemma KeptOneMore(yaml: Yaml, db: Db, events: seq<Event>, event: Event, name: string)
    ensures var all := events + [event];
            KeptSinceLoaded(yaml, db, all, name) <==>
            || LoadedIn(yaml, db, all, |events|, name)
            || (KeptSinceLoaded(yaml, db, events, name) && KeptIn(event, name))
  {
    hide LoadedIn, KeptIn;
    var all, n := events + [event], |events|;
    forall j | 0 <= j < n
      ensures LoadedIn(yaml, db, all, j, name) == LoadedIn(yaml, db, events, j, name)
      ensures KeptFrom(all, j + 1, name) <==> KeptFrom(events, j + 1, name) && KeptIn(event, name)
    {
      LoadedInPrefix(yaml, db, events, event, j, name);
      assert forall k :: 0 <= k < n ==> all[k] == events[k];
      assert all[n] == event;
    }
    if LoadedIn(yaml, db, all, n, name) {
      assert KeptFrom(all, n + 1, name);
    }
    if KeptSinceLoaded(yaml, db, events, name) && KeptIn(event, name) {
      var j :| 0 <= j < n && LoadedIn(yaml, db, events, j, name) && KeptFrom(events, j + 1, name);
      assert LoadedIn(yaml, db, all, j, name) && KeptFrom(all, j + 1, name);
    }
    if KeptSinceLoaded(yaml, db, all, name) {
      var j :| 0 <= j < |all| && LoadedIn(yaml, db, all, j, name) && KeptFrom(all, j + 1, name);
      assert j < n ==> LoadedIn(yaml, db, events, j, name) && KeptFrom(events, j + 1, name);
    }
  }

  lemma LoadedInPrefix(yaml: Yaml, db: Db, events: seq<Event>, event: Event, j: nat, name: string)
    requires j < |events|
    ensures LoadedIn(yaml, db, events + [event], j, name) == LoadedIn(yaml, db, events, j, name)
  {
    assert (events + [event])[..j] == events[..j] && (events + [event])[..j + 1] == events[..j + 1];
  }

  /** The fans column of a resident's row is complete or empty, as `kept` says. */
  ghost predicate ColumnIs(yaml: Yaml, db: Db, row: SubsystemRow, kept: bool) {
    if kept then Complete(yaml, db, row) else row.fans == []
  }

  /** The fans column of every resident's row is complete exactly if the row has been kept since the
      subsystem was loaded; otherwise it is empty, and stays so. */
  ghost predicate ColumnsOk(yaml: Yaml, db: Db, events: seq<Event>, w: World) {
    && (forall i :: 0 <= i < |w.db.subsystems| && w.db.subsystems[i].config.name in Resident(yaml, w) ==>
          ColumnIs(yaml, w.db, w.db.subsystems[i], KeptSinceLoaded(yaml, db, events, w.db.subsystems[i].config.name)))
    && (forall name :: KeptSinceLoaded(yaml, db, events, name) ==> name in Snapshot.Names(Configs(w.db)))
  }

  /** What an update does to the row of a subsystem that is resident. */
  lemma UpdatedColumn(yaml: Yaml, db: Db, events: seq<Event>, w: World, event: Event, i: nat)
    requires ColumnsOk(yaml, db, events, w) && DistinctNames(Configs(w.db))
    requires i < |Received(w.db, event.update).subsystems|
    ensures var received := Received(w.db, event.update);
            var row := received.subsystems[i];
            row.config.name in Resident(yaml, w) ==>
              ColumnIs(yaml, received, row, KeptSinceLoaded(yaml, db, events, row.config.name) && KeptIn(event, row.config.name))
  {
    hide KeptSinceLoaded, Complete, Resident;
    if event.update.Some? {
      var update := event.update.value;
      var row := ApplyUpdate(w.db, update).subsystems[i];
      UpdatedRowFans(yaml, w.db, update, i);
      assert update.configs[i] in update.configs;
      if j :| 0 <= j < |w.db.subsystems| && w.db.subsystems[j].config.name == row.config.name {
        assert row.config.name in Resident(yaml, w) ==>
            ColumnIs(yaml, w.db, w.db.subsystems[j], KeptSinceLoaded(yaml, db, events, row.config.name));
      }
    }
  }

  /** What a pass does to the row of a subsystem that is resident afterwards. */
  lemma PassedColumn(yaml: Yaml, db: Db, resident: set<string>, i: nat, kept: bool)
    requires Linked(yaml, db, resident) && i < |db.subsystems|
    requires db.subsystems[i].config.name in resident ==> ColumnIs(yaml, db, db.subsystems[i], kept)
    requires db.subsystems[i].config.name in Residents(yaml, resident, Configs(db))
    ensures ColumnIs(yaml, DbPassed(yaml, db, resident), DbPassed(yaml, db, resident).subsystems[i],
                     kept || db.subsystems[i].config.name !in resident)
    ensures DbPassed(yaml, db, resident).subsystems[i].config.name == db.subsystems[i].config.name
  {
    hide Linked, Complete, DbAfter, Residents, Loads;
    var configs, n := Configs(db), |db.subsystems|;
    LinkedDistinct(yaml, db, resident);
    ResidentsListed(yaml, resident, configs, i);
    PassOnRow(yaml, db, resident, configs, n, i, ResidentAfter(yaml, resident, configs, n));
    DbAfterConfigs(yaml, db, resident, configs, n);
    assert Configs(DbPassed(yaml, db, resident))[i] == configs[i];
    if configs[i].name in resident && kept {
      KeptStaysComplete(yaml, db, DbPassed(yaml, db, resident), i);
    }
  }

  lemma {:induction false} RowsCompleteExactly(yaml: Yaml, db: Db, events: seq<Event>)
    requires Linked(yaml, db, {}) && UpdatesOk(events)
    ensures ColumnsOk(yaml, db, events, WorldAfter(yaml, db, events))
  {
    hide Linked, DistinctNames, WorldAfter, Resident, ColumnsOk;
    if |events| == 0 {
      NoResidentsYet(yaml, db, events);
    } else {
      var n := |events| - 1;
      RowsCompleteExactly(yaml, db, events[..n]);
      RunOk(yaml, db, events[..n]);
      assert events == events[..n] + [events[n]];
      OneMoreTurn(yaml, db, events[..n], events[n]);
      ColumnsStayOk(yaml, db, events[..n], events[n]);
    }
  }

  lemma NoResidentsYet(yaml: Yaml, db: Db, events: seq<Event>)
    requires |events| == 0
    ensures ColumnsOk(yaml, db, events, WorldAfter(yaml, db, events))
  {
  }

  lemma ColumnsStayOk(yaml: Yaml, db: Db, events: seq<Event>, event: Event)
    requires WorldOk(yaml, WorldAfter(yaml, db, events)) && ColumnsOk(yaml, db, events, WorldAfter(yaml, db, events))
    requires event.update.Some? ==> DistinctNames(event.update.value.configs)
    ensures ColumnsOk(yaml, db, events + [event], WorldAfter(yaml, db, events + [event]))
  {
    hide Linked, DistinctNames, WorldAfter, WorldOk, Resident, ColumnIs, KeptSinceLoaded, Snapshot.Names;
    var all := events + [event];
    var next := WorldAfter(yaml, db, all);
    forall i | 0 <= i < |next.db.subsystems| && next.db.subsystems[i].config.name in Resident(yaml, next)
      ensures ColumnIs(yaml, next.db, next.db.subsystems[i], KeptSinceLoaded(yaml, db, all, next.db.subsystems[i].config.name))
    {
      ColumnAfterTurn(yaml, db, events, event, i);
    }
    forall name | KeptSinceLoaded(yaml, db, all, name) ensures name in Snapshot.Names(Configs(next.db)) {
      KeptIsListed(yaml, db, events, event, name);
    }
  }

  lemma ColumnAfterTurn(yaml: Yaml, db: Db, events: seq<Event>, event: Event, i: nat)
    requires WorldOk(yaml, WorldAfter(yaml, db, events)) && ColumnsOk(yaml, db, events, WorldAfter(yaml, db, events))
    requires event.update.Some? ==> DistinctNames(event.update.value.configs)
    requires var next := WorldAfter(yaml, db, events + [event]);
             i < |next.db.subsystems| && next.db.subsystems[i].config.name in Resident(yaml, next)
    ensures var next := WorldAfter(yaml, db, events + [event]);
            ColumnIs(yaml, next.db, next.db.subsystems[i],
                     KeptSinceLoaded(yaml, db, events + [event], next.db.subsystems[i].config.name))
  {
    hide Linked, DistinctNames, WorldAfter, Resident, Residents, ColumnIs, ColumnsOk, KeptSinceLoaded, KeptIn, DbPassed;
    var w, all := WorldAfter(yaml, db, events), events + [event];
    var next, received := WorldAfter(yaml, db, all), Received(w.db, event.update);
    OneMoreTurn(yaml, db, events, event);
    StepOk(yaml, w, event);
    StepResident(yaml, w, event);
    LinkedDistinct(yaml, w.db, Resident(yaml, w));
    var name := next.db.subsystems[i].config.name;
    UpdatedColumn(yaml, db, events, w, event, i);
    KeptOneMore(yaml, db, events, event, name);
    assert all[|events|] == event && all[..|events|] == events && all[..|events| + 1] == all;
    if Locked(event) {
      PassLinked(yaml, received, Resident(yaml, w));
      assert Configs(next.db)[i] == Configs(received)[i];
      PassedColumn(yaml, received, Resident(yaml, w), i, KeptSinceLoaded(yaml, db, events, name) && KeptIn(event, name));
    }
  }

  lemma KeptIsListed(yaml: Yaml, db: Db, events: seq<Event>, event: Event, name: string)
    requires WorldOk(yaml, WorldAfter(yaml, db, events)) && ColumnsOk(yaml, db, events, WorldAfter(yaml, db, events))
    requires event.update.Some? ==> DistinctNames(event.update.value.configs)
    requires KeptSinceLoaded(yaml, db, events + [event], name)
    ensures name in Snapshot.Names(Configs(WorldAfter(yaml, db, events + [event]).db))
  {
    hide Linked, DistinctNames, WorldAfter, Resident, ColumnIs, KeptSinceLoaded, DbPassed;
    var w, all := WorldAfter(yaml, db, events), events + [event];
    OneMoreTurn(yaml, db, events, event);
    StepOk(yaml, w, event);
    StepResident(yaml, w, event);
    PassLinked(yaml, Received(w.db, event.update), Resident(yaml, w));
    KeptOneMore(yaml, db, events, event, name);
    assert all[|events|] == event && all[..|events|] == events && all[..|events| + 1] == all;
  }

  /** Once nothing is stranded, the Fan row of a resident's described fan exists exactly if the
      subsystem's row has been kept since it was loaded. */
  lemma FanRowExistsExactly(yaml: Yaml, db: Db, events: seq<Event>, name: string, fan: YamlFan)
    requires Naming.NamesDistinct(yaml) && Linked(yaml, db, {}) && UpdatesOk(events) && FirstPassLoads(yaml, db, events)
    requires name in Resident(yaml, WorldAfter(yaml, db, events)) && fan in AllFans(Frus(yaml, name))
    ensures (exists row :: row in WorldAfter(yaml, db, events).db.fans && row.name == Naming.FullName(name, fan.name))
            <==> KeptSinceLoaded(yaml, db, events, name)
  {
    hide Naming.NamesDistinct, Linked, Settled, FirstPassLoads, WorldAfter, KeptSinceLoaded, Complete, DistinctNames, Locked;
    var w := WorldAfter(yaml, db, events);
    assert events[..|events|] == events;
    SettledOnceLocked(yaml, db, events, |events|);
    RunOk(yaml, db, events);
    RowsCompleteExactly(yaml, db, events);
    if KeptSinceLoaded(yaml, db, events, name) {
      var i := ListedRow(w.db, name);
      CompleteHasRow(yaml, w.db, w.db.subsystems[i], fan);
    }
    if row :| row in w.db.fans && row.name == Naming.FullName(name, fan.name) {
      OwnerOfRow(yaml, w.db, Resident(yaml, w), name, row);
    }
  }

  lemma CompleteHasRow(yaml: Yaml, db: Db, row: SubsystemRow, fan: YamlFan)
    requires Complete(yaml, db, row) && fan in AllFans(Frus(yaml, row.config.name))
    ensures exists f :: f in db.fans && f.name == Naming.FullName(row.config.name, fan.name)
  {
    var fans := AllFans(Frus(yaml, row.config.name));
    var k :| 0 <= k < |fans| && fans[k] == fan;
    var i :| 0 <= i < |db.fans| && db.fans[i].uuid == row.fans[k] && db.fans[i].name == Naming.FullName(row.config.name, fan.name);
    assert db.fans[i] in db.fans;
  }

  lemma ListedRow(db: Db, name: string) returns (i: nat)
    requires name in Snapshot.Names(Configs(db))
    ensures i < |db.subsystems| && db.subsystems[i].config.name == name
  {
    var config :| config in Configs(db) && config.name == name;
    i :| 0 <= i < |Configs(db)| && Configs(db)[i] == config;
  }

  /** A Fan row under the name of a described fan is referenced by that fan's subsystem. */
  lemma OwnerOfRow(yaml: Yaml, db: Db, resident: set<string>, name: string, row: FanRow)
    requires Naming.NamesDistinct(yaml) && Linked(yaml, db, resident) && Settled(db, resident)
    requires row in db.fans && row.name in Naming.DescribedNames(yaml, name)
    ensures exists i :: 0 <= i < |db.subsystems| && db.subsystems[i].config.name == name && db.subsystems[i].fans != []
  {
    var r :| r in db.subsystems && row.uuid in r.fans;
    var i :| 0 <= i < |db.subsystems| && db.subsystems[i] == r;
    assert LinksOk(yaml, db, resident, db.subsystems[i]);
  }

  lemma FreshRowHasNoFans(db: Db, config: Config)
    ensures var received := ApplyUpdate(db, Update([config], {}, []));
            received.subsystems == [SubsystemRow(config, [])] && received.fans == [] && Configs(received) == [config]
  {
    var received := ApplyUpdate(db, Update([config], {}, []));
    AppliedRow(db, Update([config], {}, []), 0);
    hide Referenced;
    assert received.fans != [] ==> received.fans[0] in received.fans && received.fans[0].uuid in Referenced(received.subsystems);
    assert Referenced([SubsystemRow(config, [])]) == {} by {
      NothingReferenced(config);
    }
  }

  lemma NothingReferenced(config: Config)
    ensures Referenced([SubsystemRow(config, [])]) == {}
  {
  }

  lemma OnlyResident(yaml: Yaml, resident: set<string>, config: Config)
    requires Loads(yaml, config)
    ensures config.name in Residents(yaml, resident, [config]) && DistinctNames([config])
  {
    assert config in [config];
  }

  /** When a resident's row is replaced by a new row of the same name, its Fan rows go and do not
      come back: after the next turn the subsystem is resident, and there is no Fan row. */
  lemma ReplacedRowLosesFans(yaml: Yaml, w: World, config: Config, hw: Readings.Hw)
    requires Loads(yaml, config) && config.name in Resident(yaml, w)
    ensures var next := Step(yaml, w, Event(Some(Update([config], {}, [])), false, true, hw));
            config.name in Resident(yaml, next) && next.db.subsystems == [SubsystemRow(config, [])] && next.db.fans == []
  {
    hide Loads, ApplyUpdate, Residents, Resident, DbAfter, DistinctNames;
    var update := Update([config], {}, []);
    var received := ApplyUpdate(w.db, update);
    FreshRowHasNoFans(w.db, config);
    OnlyResident(yaml, Resident(yaml, w), config);
    StepResident(yaml, w, Event(Some(update), false, true, hw));
    IdlePass(yaml, received, Resident(yaml, w), [config], 1);
  }
}
