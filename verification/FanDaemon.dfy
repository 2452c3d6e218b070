/** The fan daemon: its tables, the reconfiguration of them, the poll and the database sync. */
module FanDaemon {
  import opened Platform
  import opened FanSpeed
  import FanStatus
  import opened Naming
  import opened Shash
  import Bus
  import opened Records
  import opened Controls
  import opened Readings
  import opened PhysFan
  import opened Database
  import opened Snapshot
  import opened Indexes
  import opened Runs

  const DAEMON_NAME := "ops-fand"

  class Fand {
    const yaml: Yaml
    const bus: Bus.I2cBus
    var db: Db
    var seqno: nat
    var idlSeqno: nat
    var curHwSet: bool
    var subsystemData: Shash<LoclSubsystem>
    var fanData: Shash<LoclFan>
    // The nodes of both indexes. Their records are the ones allocated and not freed: a record
    // joins when it is allocated and leaves when it is freed.
    ghost var subsystems: set<SubsystemNode>
    ghost var fans: set<FanNode>
    ghost var history: seq<seq<Config>>  // the snapshots processed so far
    ghost var curHwWrites: nat           // how often cur_hw has been written
    ghost var start: Db                  // the database at the beginning
    ghost var past: seq<Event>           // the turns of the main loop so far

    ghost function Records(): set<LoclSubsystem>
      reads this`subsystems
    {
      set n | n in subsystems :: n.data
    }

    /** The subsystem table lists all subsystems, the flat index all fans, and each
        subsystem's hash exactly the fans that point back to it. */
    ghost predicate IndexesAgree()
      reads this`subsystemData, this`fanData, this`subsystems, this`fans, Records()`subsystemFans
    {
      && Named(subsystems, fans)
      && Lists(subsystemData, subsystems) && Lists(fanData, fans)
      && (forall n :: n in subsystems ==> Lists(n.data.subsystemFans, Own(fans, n.data)))
    }

    /** Empty tables; the database contents have not been processed yet. */
    constructor (yaml: Yaml, bus: Bus.I2cBus, db: Db)
      requires NamesDistinct(yaml) && RegistersDisjoint(yaml) && Linked(yaml, db, {})
      ensures this.yaml == yaml && this.bus == bus && this.db == db && start == db && past == []
      ensures Valid() && Traced() && history == []
    {
      this.yaml, this.bus, this.db := yaml, bus, db;
      seqno, idlSeqno := 1, 0;
      curHwSet := false;
      subsystemData, fanData := [], [];
      subsystems, fans := {}, {};
      history, curHwWrites := [], 0;
      start, past := db, [];
    }

    /** What holds between the turns of the main loop. */
    ghost predicate Valid()
      reads this`db, this`seqno, this`idlSeqno, this`curHwSet, this`curHwWrites, this`history
      reads this`subsystemData, this`fanData, this`subsystems, this`fans
      reads bus`writes, Records()`marked, Records()`subsystemFans, Records()`valid, Records()`multiplier, Records()`numerator
      reads Records()`fanSpeed, Records()`fanSpeedOverride, Records()`speed
    {
      && NamesDistinct(yaml) && RegistersDisjoint(yaml)
      && TablesValid()
      && Linked(yaml, db, NamesOf(subsystems))
      && idlSeqno <= seqno && (seqno == idlSeqno ==> Current())
      && curHwWrites == (if curHwSet then 1 else 0)
    }

    /** All resident subsystems are valid and marked, and the table is the one that the history
        of processed snapshots determines. */
    ghost predicate TablesValid()
      reads this`history, this`subsystemData, this`fanData, this`subsystems, this`fans
      reads bus`writes, Records()`marked, Records()`subsystemFans, Records()`valid, Records()`multiplier, Records()`numerator
      reads Records()`fanSpeed, Records()`fanSpeedOverride, Records()`speed
    {
      && Consistent()
      && (forall n :: n in subsystems ==> n.data.valid && n.data.marked)
      && AllDistinct(history) && TableIs(After(yaml, history))
    }

    /** The tables reflect the snapshot that is in the database now. */
    ghost predicate Current()
      reads this`db, this`history
    {
      |history| > 0 && history[|history| - 1] == Configs(db)
    }

    /** Snapshots and rows are those of the run so far: the initial database and what the environment
        has done since determine them, up to the contents of Fan rows. */
    ghost predicate Traced()
      reads this`db, this`history, this`start, this`past
    {
      && Linked(yaml, start, {}) && UpdatesOk(past)
      && history == WorldAfter(yaml, start, past).history
      && Alike(WorldAfter(yaml, start, past).db, db)
    }

    // ----- sweep -----

    /** Drop the fan that a subsystem lists first from both indexes, and free it. */
    method RemoveHead(s: LoclSubsystem)
      requires IndexesAgree() && Node(s.name, s) in subsystems && |s.subsystemFans| > 0
      modifies this`fanData, this`fans, s`subsystemFans
      ensures IndexesAgree()
      ensures s.subsystemFans == old(s.subsystemFans)[1..]
      ensures old(s.subsystemFans)[0].data.subsystem == s
      ensures fans == old(fans) - {old(s.subsystemFans)[0]}
      ensures DeletedByKey(fanData, s.subsystemFans) == DeletedByKey(old(fanData), old(s.subsystemFans))
    {
      hide Lists;
      var node := s.subsystemFans[0];
      ListsAt(s.subsystemFans, Own(fans, s), 0);
      FindListed(fanData, fans, node);
      DeletedLists(fanData, fans, Find(fanData, node.data.name));
      DeletedLists(s.subsystemFans, Own(fans, s), 0);
      forall n | n in subsystems ensures Own(fans - {node}, n.data) == if n.data == s then Own(fans, s) - {node} else Own(fans, n.data) {
        OwnWithout(fans, node, n.data);
      }
      fanData := Deleted(fanData, Find(fanData, node.data.name));
      s.subsystemFans := Deleted(s.subsystemFans, 0);
      assert node in fans;
      fans := fans - {node};  // free(fan)
    }

    /** Drop all fans of a subsystem. */
    method RemoveFans(s: LoclSubsystem)
      requires IndexesAgree() && Node(s.name, s) in subsystems
      modifies this`fanData, this`fans, s`subsystemFans
      ensures IndexesAgree()
      ensures fans == old(fans) - Own(old(fans), s)
      ensures Own(fans, s) == {}
      ensures fanData == DeletedByKey(old(fanData), old(s.subsystemFans))
    {
      hide IndexesAgree, Lists, DeletedByKey;
      while |s.subsystemFans| > 0
        invariant IndexesAgree()
        invariant DeletedByKey(fanData, s.subsystemFans) == DeletedByKey(old(fanData), old(s.subsystemFans))
        invariant old(fans) - Own(old(fans), s) <= fans <= old(fans)
        decreases |s.subsystemFans|
      {
        RemoveHead(s);
      }
      OwnListed(s);
      EmptyListing(Own(fans, s));
      NoneDeleted(fanData);
      assert forall n :: n in fans && n in Own(old(fans), s) ==> n in Own(fans, s);
    }

    lemma OwnListed(s: LoclSubsystem)
      requires IndexesAgree() && Node(s.name, s) in subsystems
      ensures Lists(s.subsystemFans, Own(fans, s))
    {
      hide Lists;
      assert Lists(Node(s.name, s).data.subsystemFans, Own(fans, Node(s.name, s).data));
    }

    /** Drop a subsystem with all its fans, and free it. */
    method RemoveSubsystem(i: nat, s: LoclSubsystem)
      requires IndexesAgree() && i < |subsystemData| && subsystemData[i] == Node(s.name, s) && Node(s.name, s) in subsystems
      modifies this`subsystemData, this`subsystems, this`fanData, this`fans, s`subsystemFans
      ensures IndexesAgree()
      ensures subsystemData == Deleted(old(subsystemData), i)
      ensures subsystems == old(subsystems) - {Node(s.name, s)}
      ensures fans == old(fans) - Own(old(fans), s)
      ensures fanData == DeletedByKey(old(fanData), old(s.subsystemFans))
    {
      hide Lists;
      RemoveFans(s);
      DeletedLists(subsystemData, subsystems, i);
      subsystemData := Deleted(subsystemData, i);
      subsystems := subsystems - {Node(s.name, s)};  // free(subsystem)
    }

    /** Delete, while iterating, every subsystem that is not marked, with all its fans. */
    method RemoveUnmarkedSubsystems()
      requires IndexesAgree()
      modifies this`subsystemData, this`subsystems, this`fanData, this`fans, Records()`subsystemFans
      ensures IndexesAgree()
      ensures subsystems == set n | n in old(subsystems) && n.data.marked
      ensures fans == set n | n in old(fans) && n.data.subsystem.marked
      ensures forall n :: n in subsystems ==> unchanged(n.data)
    {
      hide Lists;
      var i := 0;
      while i < |subsystemData|
        invariant i <= |subsystemData|
        invariant IndexesAgree()
        invariant subsystems <= old(subsystems)
        invariant forall n :: n in subsystems ==> unchanged(n.data)
        invariant forall n :: n in old(subsystems) && n.data.marked ==> n in subsystems
        invariant fans == set n | n in old(fans) && Node(n.data.subsystem.name, n.data.subsystem) in subsystems
        invariant forall j :: 0 <= j < i ==> subsystemData[j].data.marked
        decreases |subsystemData| - i
      {
        ListsAt(subsystemData, subsystems, i);
        var s := subsystemData[i].data;
        if !s.marked {
          RemoveSubsystem(i, s);
        } else {
          i := i + 1;
        }
      }
      forall n | n in subsystems ensures n.data.marked {
        var j := ListsHas(subsystemData, subsystems, n);
      }
    }

    // ----- adding a subsystem -----

    /** Allocate the record of a described fan and add it to both indexes. */
    method AddFanRecord(s: LoclSubsystem, fan: YamlFan)
      requires IndexesAgree() && Node(s.name, s) in subsystems
      requires forall n :: n in fans ==> n.name != FullName(s.name, fan.name)
      modifies this`fanData, this`fans, s`subsystemFans
      ensures IndexesAgree()
      ensures exists n :: n !in old(fans) && fresh(n.data) && n.data.subsystem == s && n.data.yamlFan == fan
                          && fans == old(fans) + {n}
    {
      hide Lists, Named;
      var name := FullName(s.name, fan.name);
      var newFan := new LoclFan(name, s, fan);
      var node := Node(name, newFan);
      NamedWithFan(subsystems, fans, newFan);
      var p: nat :| p <= |s.subsystemFans|;
      var q: nat :| q <= |fanData|;
      InsertedLists(s.subsystemFans, Own(fans, s), p, node);
      InsertedLists(fanData, fans, q, node);
      forall n | n in subsystems ensures Own(fans + {node}, n.data) == if n.data == s then Own(fans, s) + {node} else Own(fans, n.data) {
        OwnWith(fans, node, n.data);
      }
      s.subsystemFans := Inserted(s.subsystemFans, p, node);
      fanData := Inserted(fanData, q, node);
      fans := fans + {node};
      assert node.data.yamlFan == fan;
    }

    /** Position of the first Fan row of this name, or -1. */
    method LookupFan(name: string) returns (i: int)
      ensures i == RowIndex(db.fans, name)
    {
      i := 0;
      while i < |db.fans|
        invariant 0 <= i <= |db.fans|
        invariant forall j :: 0 <= j < i ==> db.fans[j].name != name
      {
        if db.fans[i].name == name {
          return;
        }
        i := i + 1;
      }
      i := -1;
    }

    /** Reuse the Fan row of this name or insert one, and set its columns to their defaults. */
    method ProvisionRow(name: string, fanArray: seq<Uuid>) returns (r: seq<Uuid>)
      modifies this`db
      ensures Provisioned(db.fans, db.nextUuid, r) ==
              Provision(Provisioned(old(db.fans), old(db.nextUuid), fanArray), name)
      ensures db.subsystems == old(db.subsystems) && db.daemons == old(db.daemons)
    {
      var i := LookupFan(name);
      if i == -1 {
        i := |db.fans|;
        db := db.(fans := db.fans + [FanRow(db.nextUuid, "", "", "", "", None)], nextUuid := db.nextUuid + 1);
      }
      var row := db.fans[i];
      row := row.(name := name);
      row := row.(status := FanStatus.PrintStatus(FanStatus.UNINITIALIZED));
      row := row.(direction := "f2b");
      row := row.(speed := PrintSpeed(NORMAL));
      db := db.(fans := db.fans[i := row]);
      r := fanArray + [row.uuid];
    }

    /** Record and row for fan number `n` of the description. */
    method AddFan(s: LoclSubsystem, fan: YamlFan, fanArray: seq<Uuid>, ghost before: set<FanNode>,
                  ghost rows: seq<FanRow>, ghost next: Uuid, ghost all: seq<YamlFan>, ghost n: nat)
      returns (r: seq<Uuid>)
      requires IndexesAgree() && Node(s.name, s) in subsystems
      requires all == AllFans(Frus(yaml, s.name)) && FanNamesDistinct(all)
      requires n < |all| && fan == all[n] && Grown(before, fans, s, all, n)
      requires forall x :: x in before ==> x.name !in DescribedNames(yaml, s.name)
      requires Provisioned(db.fans, db.nextUuid, fanArray) == ProvisionFans(rows, next, s.name, all, n)
      modifies this`fanData, this`fans, this`db, s`subsystemFans
      ensures IndexesAgree() && Grown(before, fans, s, all, n + 1)
      ensures Provisioned(db.fans, db.nextUuid, r) == ProvisionFans(rows, next, s.name, all, n + 1)
      ensures db.subsystems == old(db.subsystems) && db.daemons == old(db.daemons)
      ensures forall x :: x in fans && x !in old(fans) ==> fresh(x.data)
    {
      hide Lists, Grown, ProvisionFans;
      NextNameIsFree(yaml, subsystems, before, fans, s, all, n);
      AddFanRecord(s, fan);
      ghost var x :| x !in old(fans) && x.data.subsystem == s && x.data.yamlFan == fan && fans == old(fans) + {x};
      GrownOneMore(before, old(fans), s, all, n, x);
      ProvisionNextFan(rows, next, s.name, all, n);
      r := ProvisionRow(FullName(s.name, fan.name), fanArray);
    }

    /** Records and rows for all described fans of a subsystem, FRU by FRU. */
    method AddFans(s: LoclSubsystem) returns (fanArray: seq<Uuid>)
      requires IndexesAgree() && Node(s.name, s) in subsystems && Own(fans, s) == {}
      requires FanNamesDistinct(AllFans(Frus(yaml, s.name)))
      requires forall x :: x in fans ==> x.name !in DescribedNames(yaml, s.name)
      modifies this`fanData, this`fans, this`db, s`subsystemFans
      ensures IndexesAgree()
      ensures OwnYamlFans(fans, s) == DescribedFans(yaml, s.name)
      ensures old(fans) <= fans && forall x :: x in fans && x !in old(fans) ==> x.data.subsystem == s && fresh(x.data)
      ensures Provisioned(db.fans, db.nextUuid, fanArray) ==
              ProvisionAll(old(db.fans), old(db.nextUuid), FullNames(s.name, AllFans(Frus(yaml, s.name))))
      ensures db.subsystems == old(db.subsystems) && db.daemons == old(db.daemons)
    {
      hide Lists, Named, Grown, ProvisionFans;
      var frus := Frus(yaml, s.name);
      ghost var all := AllFans(frus);
      ghost var n := 0;
      fanArray := [];
      assert Grown(fans, fans, s, all, 0) && ProvisionFans(db.fans, db.nextUuid, s.name, all, 0) == Provisioned(db.fans, db.nextUuid, []) by {
        NothingGrown(fans, s, all);
        NothingProvisioned(db.fans, db.nextUuid, s.name, all);
      }
      for idx := 0 to |frus|
        invariant n == |AllFans(frus[..idx])| <= |all|
        invariant IndexesAgree() && Grown(old(fans), fans, s, all, n)
        invariant Provisioned(db.fans, db.nextUuid, fanArray) == ProvisionFans(old(db.fans), old(db.nextUuid), s.name, all, n)
        invariant db.subsystems == old(db.subsystems) && db.daemons == old(db.daemons)
        invariant forall x :: x in fans && x !in old(fans) ==> fresh(x.data)
      {
        AllFansNext(frus, idx);
        var fruFans := frus[idx].fans;
        for j := 0 to |fruFans|
          invariant n == |AllFans(frus[..idx])| + j <= |all|
          invariant IndexesAgree() && Grown(old(fans), fans, s, all, n)
          invariant Provisioned(db.fans, db.nextUuid, fanArray) == ProvisionFans(old(db.fans), old(db.nextUuid), s.name, all, n)
          invariant db.subsystems == old(db.subsystems) && db.daemons == old(db.daemons)
          invariant forall x :: x in fans && x !in old(fans) ==> fresh(x.data)
        {
          AllFansAt(frus, idx, j);
          fanArray := AddFan(s, fruFans[j], fanArray, old(fans), old(db.fans), old(db.nextUuid), all, n);
          n := n + 1;
        }
      }
      assert frus[..|frus|] == frus;
      EverythingProvisioned(old(db.fans), old(db.nextUuid), s.name, all);
      GrownAll(old(fans), fans, s, all);
    }

    /** Make the staged changes permanent; rows that are no longer referenced go. */
    method Commit()
      modifies this`db
      ensures db == Collect(old(db))
    {
      db := Collect(db);
    }

    /** The indexes agree and every record is in order. */
    ghost predicate Consistent()
      reads this`subsystemData, this`fanData, this`subsystems, this`fans, bus`writes
      reads Records()`subsystemFans, Records()`valid, Records()`multiplier, Records()`numerator
      reads Records()`fanSpeed, Records()`fanSpeedOverride, Records()`speed
    {
      && IndexesAgree()
      && (forall n :: n in subsystems ==> RecordOk(yaml, n.data, fans, bus.writes))
    }

    /** Allocate the record of a subsystem and add it to the table, not marked and not yet valid. */
    method NewSubsystem(config: Config) returns (s: LoclSubsystem)
      requires Consistent()
      requires forall n :: n in subsystems ==> n.name != config.name
      modifies this`subsystemData, this`subsystems
      ensures Consistent()
      ensures fresh(s) && s.name == config.name && subsystems == old(subsystems) + {Node(s.name, s)}
      ensures !s.marked && !s.valid && Own(fans, s) == {}
      ensures s.fanSpeed == NORMAL && s.fanSpeedOverride == ParseSpeed(Override(config))
    {
      hide Consistent, Lists;
      s := new LoclSubsystem(config.name);
      var p: nat :| p <= |subsystemData|;
      subsystemData := Inserted(subsystemData, p, Node(config.name, s));
      subsystems := subsystems + {Node(config.name, s)};
      var override := NONE;
      if Override(config).Some? {
        override := StringToEnum(Override(config));
      }
      s.fanSpeedOverride := override;
      s.fanSpeed := NORMAL;
      TableGrown(s, p);
    }

    /** A new record without fans leaves everything in order. */
    twostate lemma TableGrown(new s: LoclSubsystem, p: nat)
      requires old(Consistent()) && p <= |old(subsystemData)| && forall n :: n in old(subsystems) ==> n.name != s.name
      requires subsystemData == Inserted(old(subsystemData), p, Node(s.name, s))
      requires subsystems == old(subsystems) + {Node(s.name, s)}
      requires unchanged(`fanData) && unchanged(`fans) && unchanged(bus) && forall n :: n in old(subsystems) ==> unchanged(n.data)
      requires !s.valid && s.subsystemFans == []
      ensures Consistent() && Own(fans, s) == {}
    {
      hide Lists, Named, HoldsSpeed, OwnYamlFans, DescribedFans;
      var node := Node(s.name, s);
      NamedWithSubsystem(old(subsystems), fans, s);
      InsertedLists(old(subsystemData), old(subsystems), p, node);
      EmptyLists<LoclFan>();
    }

    /** Give a loaded subsystem its fan records and, in one transaction, its Fan rows. */
    method ProvideFans(i: nat, s: LoclSubsystem)
      requires i < |db.subsystems|
      requires IndexesAgree() && Node(s.name, s) in subsystems && Own(fans, s) == {}
      requires FanNamesDistinct(AllFans(Frus(yaml, s.name)))
      requires forall x :: x in fans ==> x.name !in DescribedNames(yaml, s.name)
      modifies this`fanData, this`fans, this`db, s`subsystemFans
      ensures IndexesAgree()
      ensures OwnYamlFans(fans, s) == DescribedFans(yaml, s.name)
      ensures old(fans) <= fans && forall x :: x in fans && x !in old(fans) ==> x.data.subsystem == s && fresh(x.data)
      ensures db == AddFanRows(old(db), i, FullNames(s.name, AllFans(Frus(yaml, s.name))))
    {
      hide Lists, Named, OwnYamlFans, DescribedFans, DescribedNames, FanNamesDistinct;
      var fanArray := AddFans(s);
      db := db.(subsystems := db.subsystems[i := db.subsystems[i].(fans := fanArray)]);
      Commit();
    }

    /** Load the hardware description of a new subsystem and give it its fans. */
    method LoadSubsystem(i: nat, config: Config, s: LoclSubsystem)
      requires i < |db.subsystems| && config == db.subsystems[i].config
      requires Node(s.name, s) in subsystems && !s.valid && s.name == config.name
      requires Consistent() && RegistersDisjoint(yaml) && FanNamesDistinct(AllFans(Frus(yaml, s.name)))
      requires forall x :: x in fans ==> x.name !in DescribedNames(yaml, s.name)
      modifies this`fanData, this`fans, this`db, bus
      modifies s`valid, s`multiplier, s`numerator, s`subsystemFans, s`speed
      ensures Consistent()
      ensures s.valid == Loads(yaml, config)
      ensures s.valid <==> config.hwDescDir.Some? && config.hwDescDir.value != "" && yaml(config.name).Loaded? && |yaml(config.name).frus| > 0
      ensures bus.writes == old(bus.writes) + if s.valid then SpeedWrites(yaml, s.name, s.speed) else []
      ensures old(fans) <= fans && forall x :: x in fans && x !in old(fans) ==> x.data.subsystem == s && fresh(x.data)
      ensures db == if s.valid then AddFanRows(old(db), i, FullNames(s.name, AllFans(Frus(yaml, s.name)))) else old(db)
    {
      hide Lists, Named, RegistersDisjoint, SpeedWrites;
      if config.hwDescDir.None? || |config.hwDescDir.value| == 0 {
        return;
      }
      if yaml(config.name).AddFails? || yaml(config.name).DevicesFail? || yaml(config.name).FansFail? {
        return;
      }
      if yaml(config.name).NoFanInfo? {
        return;
      }
      s.multiplier := yaml(config.name).info.multiplier;
      s.numerator := yaml(config.name).info.numerator;
      if |yaml(config.name).frus| == 0 {
        return;
      }
      s.valid := true;
      ProvideFans(i, s);
      StartFans(s, old(fans));
    }

    /** Write the provisional speed of a subsystem that has just become valid. */
    method StartFans(s: LoclSubsystem, ghost before: set<FanNode>)
      requires IndexesAgree() && Node(s.name, s) in subsystems && RegistersDisjoint(yaml)
      requires forall n :: n in subsystems && n.data != s ==> RecordOk(yaml, n.data, before, bus.writes)
      requires before <= fans && forall x :: x in fans && x !in before ==> x.data.subsystem == s
      requires s.valid && yaml(s.name).Loaded? && |yaml(s.name).frus| > 0
      requires s.multiplier == yaml(s.name).info.multiplier && s.numerator == yaml(s.name).info.numerator
      requires OwnYamlFans(fans, s) == DescribedFans(yaml, s.name)
      modifies bus, s`speed
      ensures Consistent()
      ensures bus.writes == old(bus.writes) + SpeedWrites(yaml, s.name, s.speed)
    {
      hide Lists, RegistersDisjoint;
      ghost var writes := bus.writes;
      SetFanSpeed(yaml, bus, s);
      SpeedWritesHold(writes, yaml, s.name, s.speed);
      OthersInOrder(s, before, writes);
    }

    /** After the fans and the speed of one subsystem changed, all other records are still in order. */
    lemma OthersInOrder(s: LoclSubsystem, before: set<FanNode>, writes: seq<Bus.RegWrite>)
      requires Named(subsystems, fans) && Node(s.name, s) in subsystems && RegistersDisjoint(yaml)
      requires forall n :: n in subsystems && n.data != s ==> RecordOk(yaml, n.data, before, writes)
      requires before <= fans && forall x :: x in fans && x !in before ==> x.data.subsystem == s
      requires bus.writes == writes + SpeedWrites(yaml, s.name, s.speed)
      ensures forall n :: n in subsystems && n.data != s ==> RecordOk(yaml, n.data, fans, bus.writes)
    {
      forall n | n in subsystems && n.data != s ensures RecordOk(yaml, n.data, fans, bus.writes) {
        RecordUnaffectedByFans(yaml, n.data, before, fans, writes);
        RecordUnaffectedBySpeed(yaml, n.data, fans, writes, s.name, s.speed);
      }
    }

    /** What is written while a subsystem is added: the arbitrated speed with NORMAL for the sensors. */
    ghost function ProvisionalWrites(config: Config): seq<Bus.RegWrite> {
      if Loads(yaml, config) then SpeedWrites(yaml, config.name, Arbitrate(ParseSpeed(Override(config)), NORMAL)) else []
    }

    /** Add a subsystem that is not in the table. It joins the table whether or not it loads;
        `result` is null if it does not. */
    method AddSubsystem(i: nat) returns (result: LoclSubsystem?, ghost s: LoclSubsystem)
      requires i < |db.subsystems| && Consistent() && RegistersDisjoint(yaml) && NamesDistinct(yaml)
      requires forall n :: n in subsystems ==> n.name != db.subsystems[i].config.name
      modifies this`subsystemData, this`subsystems, this`fanData, this`fans, this`db, bus
      ensures Consistent()
      ensures fresh(s) && s.name == old(db).subsystems[i].config.name && subsystems == old(subsystems) + {Node(s.name, s)}
      ensures !s.marked && s.valid == Loads(yaml, old(db).subsystems[i].config) && result == if s.valid then s else null
      ensures bus.writes == old(bus.writes) + ProvisionalWrites(old(db).subsystems[i].config)
      ensures old(fans) <= fans && forall x :: x in fans && x !in old(fans) ==> x.data.subsystem == s && fresh(x.data)
      ensures db == if s.valid then AddFanRows(old(db), i, FullNames(s.name, AllFans(Frus(yaml, s.name)))) else old(db)
    {
      hide Lists, Named, RegistersDisjoint, SpeedWrites;
      var config := db.subsystems[i].config;
      NewSubsystemNamesFree(yaml, subsystems, fans, bus.writes, config.name);
      var added := NewSubsystem(config);
      LoadSubsystem(i, config, added);
      s := added;
      result := if added.valid then added else null;
    }

    /** The record of a row's subsystem, added if the table has none; null if it is unusable. */
    method GetSubsystem(i: nat) returns (result: LoclSubsystem?, ghost s: LoclSubsystem)
      requires i < |db.subsystems| && Consistent() && RegistersDisjoint(yaml) && NamesDistinct(yaml)
      modifies this`subsystemData, this`subsystems, this`fanData, this`fans, this`db, bus
      ensures Consistent()
      ensures var config := old(db).subsystems[i].config;
              && s.name == config.name && result == (if s.valid then s else null)
              && (forall n :: n in old(subsystems) && n.data != s ==> n.name != s.name)
              && if Node(s.name, s) in old(subsystems) then
                   && subsystems == old(subsystems) && fans == old(fans) && db == old(db) && bus.writes == old(bus.writes)
                 else
                   && fresh(s) && subsystems == old(subsystems) + {Node(s.name, s)}
                   && (forall n :: n in old(subsystems) ==> n.name != config.name)
                   && !s.marked && s.valid == Loads(yaml, config)
                   && bus.writes == old(bus.writes) + ProvisionalWrites(config)
                   && old(fans) <= fans && (forall x :: x in fans && x !in old(fans) ==> x.data.subsystem == s && fresh(x.data))
                   && db == if s.valid then AddFanRows(old(db), i, FullNames(s.name, AllFans(Frus(yaml, s.name)))) else old(db)
    {
      hide Lists, RegistersDisjoint, RecordOk, NamesDistinct;
      var config := db.subsystems[i].config;
      var at := Find(subsystemData, config.name);
      FindMissing(subsystemData, subsystems, config.name);
      if at < 0 {
        result, s := AddSubsystem(i);
      } else {
        ListsAt(subsystemData, subsystems, at);
        var found := subsystemData[at].data;
        s := found;
        result := if found.valid then found else null;
      }
    }

    // ----- reconfiguration -----

    /** All records but that of `s` are in order, and that one mirrors its description; its requests
        may differ from its speed. */
    ghost predicate ReadyToDrive(s: LoclSubsystem)
      reads this`subsystems, this`fans, bus`writes, s`valid, s`multiplier, s`numerator
      reads Records()`valid, Records()`multiplier, Records()`numerator
      reads (Records() - {s})`fanSpeed, (Records() - {s})`fanSpeedOverride, (Records() - {s})`speed
    {
      && Node(s.name, s) in subsystems
      && (forall n :: n in subsystems && n.data != s ==> RecordOk(yaml, n.data, fans, bus.writes))
      && s.valid && yaml(s.name).Loaded? && |yaml(s.name).frus| > 0
      && s.multiplier == yaml(s.name).info.multiplier && s.numerator == yaml(s.name).info.numerator
      && OwnYamlFans(fans, s) == DescribedFans(yaml, s.name)
    }

    lemma InOrderReadyToDrive(s: LoclSubsystem)
      requires Consistent() && Node(s.name, s) in subsystems && s.valid
      ensures IndexesAgree() && ReadyToDrive(s)
    {
      hide IndexesAgree, HoldsSpeed;
      assert RecordOk(yaml, Node(s.name, s).data, fans, bus.writes);
    }

    /** Bring a usable subsystem up to date with its row, drive its fans and LEDs, and mark it. */
    method UpdateSubsystem(config: Config, s: LoclSubsystem)
      requires Consistent() && RegistersDisjoint(yaml)
      requires Node(s.name, s) in subsystems && s.valid
      modifies bus, s`fanSpeed, s`fanSpeedOverride, s`speed, s`marked
      ensures Consistent()
      ensures s.marked && s.fanSpeed == SensorMax(config.tempSensors) && s.fanSpeedOverride == ParseSpeed(Override(config))
      ensures bus.writes == old(bus.writes) + (SpeedWrites(yaml, s.name, RowSpeed(config)) +
                                               LedWrites(yaml, s.name, Sights(s.subsystemFans)))
    {
      hide Consistent, IndexesAgree, ReadyToDrive, RegistersDisjoint, SpeedWrites, LedWrites;
      InOrderReadyToDrive(s);
      SetRequests(config, s);
      RequestsIgnored(s);
      DriveFans(s);
      s.marked := true;
    }

    /** The requests of `s` matter neither to the indexes nor to the other records. */
    twostate lemma RequestsIgnored(s: LoclSubsystem)
      requires old(IndexesAgree()) && old(ReadyToDrive(s))
      requires unchanged(this) && unchanged(bus) && forall n :: n in subsystems && n.data != s ==> unchanged(n.data)
      requires unchanged(s`valid) && unchanged(s`multiplier) && unchanged(s`numerator) && unchanged(s`subsystemFans)
      ensures IndexesAgree() && ReadyToDrive(s)
    {
      hide Named, Lists, HoldsSpeed, OwnYamlFans, DescribedFans, Own;
    }

    /** Record what the sensors and the override of the row ask for. */
    method SetRequests(config: Config, s: LoclSubsystem)
      modifies s`fanSpeed, s`fanSpeedOverride
      ensures s.fanSpeed == SensorMax(config.tempSensors) && s.fanSpeedOverride == ParseSpeed(Override(config))
    {
      var highest := HighestSensor(config.tempSensors);
      s.fanSpeed := highest;
      var override := StringToEnum(Override(config));
      if s.fanSpeedOverride != override {
        s.fanSpeedOverride := override;
      }
    }

    /** Write the arbitrated speed and the LEDs of a subsystem whose requests may have changed. */
    method DriveFans(s: LoclSubsystem)
      requires IndexesAgree() && RegistersDisjoint(yaml) && ReadyToDrive(s)
      modifies bus, s`speed
      ensures Consistent()
      ensures bus.writes == old(bus.writes) + (SpeedWrites(yaml, s.name, s.speed) + LedWrites(yaml, s.name, Sights(s.subsystemFans)))
      ensures s.speed == Arbitrate(s.fanSpeedOverride, s.fanSpeed)
    {
      hide Lists, RegistersDisjoint, SpeedWrites, LedWrites, HoldsSpeed;
      StartFans(s, fans);
      ghost var writes := bus.writes;
      ghost var sights := Sights(s.subsystemFans);
      SetFanLeds(yaml, bus, s);
      Associative(old(bus.writes), SpeedWrites(yaml, s.name, s.speed), LedWrites(yaml, s.name, sights));
      forall n | n in subsystems ensures RecordOk(yaml, n.data, fans, bus.writes) {
        RecordUnaffectedByLeds(yaml, n.data, fans, writes, s.name, sights);
      }
    }

    /** What is written for a usable row: its configured speed, then the LEDs for the cached statuses. */
    ghost function RowWrites(config: Config, s: LoclSubsystem): seq<Bus.RegWrite>
      reads s`subsystemFans, set node | node in s.subsystemFans :: node.data
    {
      SpeedWrites(yaml, config.name, RowSpeed(config)) + LedWrites(yaml, config.name, Sights(s.subsystemFans))
    }

    /** One row of the pass: find or add its subsystem, and bring it up to date if it is usable. */
    method ProcessRow(i: nat) returns (ghost s: LoclSubsystem)
      requires i < |db.subsystems| && Consistent() && RegistersDisjoint(yaml) && NamesDistinct(yaml)
      requires forall n :: n in subsystems && n.name == db.subsystems[i].config.name ==> n.data.valid
      modifies this`subsystemData, this`subsystems, this`fanData, this`fans, this`db, bus
      modifies Records()`marked, Records()`fanSpeed, Records()`fanSpeedOverride, Records()`speed
      ensures Consistent()
      ensures Processed(yaml, old(db).subsystems[i].config, s, Node(s.name, s) in old(subsystems))
      ensures subsystems == old(subsystems) + {Node(s.name, s)}
      ensures forall n :: n in old(subsystems) && n.data != s ==> unchanged(n.data) && n.name != s.name
      ensures old(fans) <= fans && forall x :: x in fans && x !in old(fans) ==> x.data.subsystem == s && fresh(x.data)
      ensures if Node(s.name, s) in old(subsystems) then fans == old(fans) else fresh(s)
      ensures var config := old(db).subsystems[i].config;
              bus.writes == old(bus.writes) + (if Node(s.name, s) in old(subsystems) then [] else ProvisionalWrites(config))
                                            + (if s.valid then RowWrites(config, s) else [])
      ensures db == if Node(s.name, s) !in old(subsystems) && s.valid
                    then AddFanRows(old(db), i, FullNames(s.name, AllFans(Frus(yaml, s.name)))) else old(db)
    {
      hide Consistent, RegistersDisjoint, NamesDistinct, Loads, AddFanRows, FullNames, SpeedWrites, LedWrites, ProvisionalWrites;
      var config := db.subsystems[i].config;
      var subsystem;
      subsystem, s := GetSubsystem(i);
      assert old(bus.writes) + [] == old(bus.writes) && bus.writes + [] == bus.writes;
      if subsystem == null {
        return;
      }
      UpdateSubsystem(config, subsystem);
    }

    /** The tables in the middle of a pass: the first `i` rows are processed, and the residents
        from before the pass that no row has named yet are valid and not marked. */
    ghost predicate Passed(configs: seq<Config>, i: nat, before: set<SubsystemNode>)
      requires i <= |configs|
      reads this`subsystems, Records()`valid, Records()`marked, Records()`fanSpeed, Records()`fanSpeedOverride
    {
      && PassedNames(subsystems, before, Names(configs[..i]))
      && (forall n, j :: n in subsystems && 0 <= j < i && n.name == configs[j].name ==>
            Processed(yaml, configs[j], n.data, n in before))
      && (forall n :: n in before && n.name !in Names(configs[..i]) ==> n.data.valid && !n.data.marked)
    }

    lemma NodesCarryNames()
      requires Consistent()
      ensures forall n :: n in subsystems ==> n == Node(n.data.name, n.data)
    {
    }

    /** The records of the first `i` rows, apart from `s`, are processed; the residents from before the
        pass that no row has named yet are as they were. */
    ghost predicate PassedBut(configs: seq<Config>, i: nat, before: set<SubsystemNode>, earlier: set<SubsystemNode>, s: LoclSubsystem)
      requires i <= |configs|
      reads set n | n in earlier + before && n.data != s :: n.data
    {
      && PassedNames(earlier, before, Names(configs[..i]))
      && (forall n, j :: n in earlier && n.data != s && 0 <= j < i && n.name == configs[j].name ==>
            Processed(yaml, configs[j], n.data, n in before))
      && (forall n :: n in before && n.data != s && n.name !in Names(configs[..i]) ==> n.data.valid && !n.data.marked)
    }

    /** The record of row `i` is processed, the other records are as before. */
    lemma PassedOneMore(configs: seq<Config>, i: nat, before: set<SubsystemNode>, earlier: set<SubsystemNode>, s: LoclSubsystem)
      requires i < |configs| && DistinctNames(configs) && PassedBut(configs, i, before, earlier, s)
      requires forall n :: n in earlier ==> n == Node(n.data.name, n.data)
      requires Processed(yaml, configs[i], s, Node(s.name, s) in earlier) && subsystems == earlier + {Node(s.name, s)}
      requires forall n :: n in earlier && n.data != s ==> n.name != s.name
      ensures Passed(configs, i + 1, before)
      ensures Node(s.name, s) in before <==> Node(s.name, s) in earlier
    {
      hide Names, PassedNames, NamesOf, Loads;
      NamesNext(configs, i);
      KnownBefore(earlier, before, Names(configs[..i]), s.name);
      NamesAfterRow(earlier, before, Names(configs[..i]), s);
    }

    method PassRow(i: nat, ghost configs: seq<Config>, ghost before: set<SubsystemNode>)
      requires i < |db.subsystems| && Configs(db) == configs && DistinctNames(configs)
      requires Consistent() && RegistersDisjoint(yaml) && NamesDistinct(yaml)
      requires Passed(configs, i, before)
      modifies this`subsystemData, this`subsystems, this`fanData, this`fans, this`db, bus
      modifies Records()`marked, Records()`fanSpeed, Records()`fanSpeedOverride, Records()`speed
      ensures Consistent() && Passed(configs, i + 1, before)
      ensures forall n :: n in subsystems ==> n in old(subsystems) || fresh(n.data)
      ensures old(fans) <= fans
      ensures forall x :: x in fans && x !in old(fans) ==>
                            Node(x.data.subsystem.name, x.data.subsystem) !in before && fresh(x.data)
      ensures db == DbStep(yaml, old(db), NamesOf(before), configs, i)
    {
      hide Consistent, RegistersDisjoint, NamesDistinct, Loads, Names, AddFanRows, FullNames, RowWrites, ProvisionalWrites, NamesOf, PassedNames;
      ghost var earlier := subsystems;
      NodesCarryNames();
      NextRowUsable(configs, i, before);
      assert db.subsystems[i].config == configs[i];
      ghost var s := ProcessRow(i);
      PassedOneMore(configs, i, before, earlier, s);
    }

    /** If the subsystem of the next row is in the table, it was there before the pass, and is usable. */
    lemma NextRowUsable(configs: seq<Config>, i: nat, before: set<SubsystemNode>)
      requires i < |configs| && DistinctNames(configs) && Passed(configs, i, before)
      requires forall n :: n in subsystems ==> n == Node(n.data.name, n.data)
      ensures forall n :: n in subsystems && n.name == configs[i].name ==> n in before && n.data.valid
      ensures configs[i].name in NamesOf(before) <==> exists n :: n in subsystems && n.name == configs[i].name
    {
      hide Names, PassedNames, NamesOf, Processed;
      NamesNext(configs, i);
      KnownBefore(subsystems, before, Names(configs[..i]), configs[i].name);
    }

    /** All rows of the snapshot, in order. */
    method PassRows()
      requires Consistent() && RegistersDisjoint(yaml) && NamesDistinct(yaml) && DistinctNames(Configs(db))
      requires forall n :: n in subsystems ==> n.data.valid && !n.data.marked
      modifies this`subsystemData, this`subsystems, this`fanData, this`fans, this`db, bus
      modifies Records()`marked, Records()`fanSpeed, Records()`fanSpeedOverride, Records()`speed
      ensures Consistent() && Passed(Configs(old(db)), |old(db).subsystems|, old(subsystems))
      ensures forall n :: n in subsystems ==> n in old(subsystems) || fresh(n.data)
      ensures old(fans) <= fans
      ensures forall x :: x in fans && x !in old(fans) ==>
                            Node(x.data.subsystem.name, x.data.subsystem) !in old(subsystems) && fresh(x.data)
      ensures db == DbPassed(yaml, old(db), NamesOf(old(subsystems)))
    {
      hide Consistent, RegistersDisjoint, NamesDistinct, Loads, AddFanRows, FullNames, Processed, DbStep, Passed;
      ghost var configs := Configs(db);
      var count := |db.subsystems|;
      NothingPassed(configs);
      for i := 0 to count
        invariant |db.subsystems| == count && Configs(db) == configs
        invariant Consistent() && Passed(configs, i, old(subsystems))
        invariant forall n :: n in subsystems ==> n in old(subsystems) || fresh(n.data)
        invariant old(fans) <= fans
        invariant forall x :: x in fans && x !in old(fans) ==>
                                Node(x.data.subsystem.name, x.data.subsystem) !in old(subsystems) && fresh(x.data)
        invariant db == DbAfter(yaml, old(db), NamesOf(old(subsystems)), configs, i)
      {
        DbStepConfigs(yaml, db, NamesOf(old(subsystems)), configs, i);
        PassRow(i, configs, old(subsystems));
      }
    }

    lemma NothingPassed(configs: seq<Config>)
      requires forall n :: n in subsystems ==> n.data.valid && !n.data.marked
      ensures Passed(configs, 0, subsystems)
    {
    }

    /** The table of the records, without cached readings, is `t`. */
    ghost predicate TableIs(t: Table)
      reads this`subsystems, this`fans, Records()`multiplier, Records()`numerator
      reads Records()`fanSpeed, Records()`fanSpeedOverride, Records()`speed
    {
      && NamesOf(subsystems) == t.Keys
      && forall n :: n in subsystems ==> EntryOf(n.data, fans) == t[n.name]
    }

    method UnmarkSubsystems()
      requires Consistent()
      modifies Records()`marked
      ensures Consistent()
      ensures forall n :: n in subsystems ==> !n.data.marked
    {
      hide IndexesAgree, RecordOk, Lists;
      assert Lists(subsystemData, subsystems) by {
        TableListed();
      }
      for i := 0 to |subsystemData|
        invariant Consistent()
        invariant forall j :: 0 <= j < i ==> !subsystemData[j].data.marked
      {
        ListsAt(subsystemData, subsystems, i);
        subsystemData[i].data.marked := false;
      }
      forall n | n in subsystems ensures !n.data.marked {
        var j := ListsHas(subsystemData, subsystems, n);
      }
    }

    lemma TableListed()
      requires IndexesAgree()
      ensures Lists(subsystemData, subsystems) && Lists(fanData, fans)
    {
    }

    /** After all rows are processed, the marked records are those of the rows that were resident
        or load, each with the contents its row asks for. */
    lemma PassResult(configs: seq<Config>, before: set<SubsystemNode>)
      requires Consistent() && DistinctNames(configs) && Passed(configs, |configs|, before)
      ensures MarkedAre(Reconfigured(yaml, NamesOf(before), configs))
    {
      hide IndexesAgree, RecordOk;
      assert configs[..|configs|] == configs;
      forall n | n in subsystems && n.data.marked
        ensures n.data.valid && n.name in Reconfigured(yaml, NamesOf(before), configs)
        ensures EntryOf(n.data, fans) == Reconfigured(yaml, NamesOf(before), configs)[n.name]
      {
        var j :| 0 <= j < |configs| && configs[j].name == n.name;
        RowOfIs(configs, j);
        assert Processed(yaml, configs[j], n.data, n in before);
        ProcessedEntry(yaml, configs[j], n.data, n in before, fans, bus.writes);
      }
      forall k | k in Reconfigured(yaml, NamesOf(before), configs)
        ensures exists n :: n in subsystems && n.data.marked && n.name == k
      {
        var j :| 0 <= j < |configs| && configs[j].name == k;
        RowOfIs(configs, j);
        var n :| n in subsystems && n.name == k;
        assert Processed(yaml, configs[j], n.data, n in before);
      }
    }

    /** The marked records, and they alone, are the table `t`. */
    ghost predicate MarkedAre(t: Table)
      reads this`subsystems, this`fans, Records()`marked, Records()`valid, Records()`multiplier, Records()`numerator
      reads Records()`fanSpeed, Records()`fanSpeedOverride, Records()`speed
    {
      && (forall n :: n in subsystems && n.data.marked ==>
            n.data.valid && n.name in t && EntryOf(n.data, fans) == t[n.name])
      && (forall k :: k in t ==> exists n :: n in subsystems && n.data.marked && n.name == k)
    }

    /** The sweep at the end of a pass; the records that stay are left as they are. */
    method Sweep(ghost t: Table)
      requires Consistent() && MarkedAre(t)
      modifies this`subsystemData, this`subsystems, this`fanData, this`fans, Records()`subsystemFans
      ensures Consistent() && TableIs(t)
      ensures subsystems == set n | n in old(subsystems) && n.data.marked
      ensures fans == set x | x in old(fans) && x.data.subsystem.marked
      ensures forall n :: n in subsystems ==> n.data.valid && n.data.marked
    {
      hide IndexesAgree, RecordOk, OwnYamlFans;
      RemoveUnmarkedSubsystems();
      forall n | n in subsystems
        ensures RecordOk(yaml, n.data, fans, bus.writes)
        ensures EntryOf(n.data, fans) == old(EntryOf(n.data, fans))
      {
        RecordUnaffectedByFans(yaml, n.data, old(fans), fans, bus.writes);
      }
    }

    /** Bring the tables in line with the database: unmark, process every row, sweep. */
    method ApplySnapshot()
      requires Consistent() && RegistersDisjoint(yaml) && NamesDistinct(yaml) && DistinctNames(Configs(db))
      requires forall n :: n in subsystems ==> n.data.valid
      modifies this`subsystemData, this`subsystems, this`fanData, this`fans, this`db, bus, Records()
      ensures Consistent()
      ensures forall n :: n in subsystems ==> n.data.valid && n.data.marked
      ensures TableIs(Reconfigured(yaml, NamesOf(old(subsystems)), Configs(old(db))))
      ensures forall n :: n in subsystems ==> n in old(subsystems) || fresh(n.data)
      ensures forall n :: n in old(subsystems) && n.name in Names(Configs(old(db))) ==> n in subsystems
      ensures forall x :: x in fans ==>
                            x in old(fans) || (Node(x.data.subsystem.name, x.data.subsystem) !in old(subsystems) && fresh(x.data))
      ensures forall x :: x in old(fans) && Node(x.data.subsystem.name, x.data.subsystem) in subsystems ==> x in fans
      ensures db == DbPassed(yaml, old(db), NamesOf(old(subsystems)))
    {
      hide IndexesAgree, RecordOk, RegistersDisjoint, NamesDistinct, DbAfter, Reconfigured, Passed, MarkedAre, TableIs;
      ghost var configs, before := Configs(db), subsystems;
      UnmarkSubsystems();
      PassRows();
      PassResult(configs, before);
      PassKept(configs, before);
      Sweep(Reconfigured(yaml, NamesOf(before), configs));
    }

    /** Residents that a row names are marked at the end of the pass. */
    lemma PassKept(configs: seq<Config>, before: set<SubsystemNode>)
      requires Passed(configs, |configs|, before)
      ensures forall n :: n in before && n.name in Names(configs) ==> n in subsystems && n.data.marked
    {
      assert configs[..|configs|] == configs;
      forall n | n in before && n.name in Names(configs) ensures n in subsystems && n.data.marked {
        var j :| 0 <= j < |configs| && configs[j].name == n.name;
        assert Processed(yaml, configs[j], n.data, n in before);
      }
    }

    // ----- poll -----

    ghost function FanRecords(): set<LoclFan>
      reads this`fans
    {
      set n | n in fans :: n.data
    }

    ghost function OwnRecords(s: LoclSubsystem): set<LoclFan>
      reads this`fans
    {
      set n | n in fans && n.data.subsystem == s :: n.data
    }

    /** Refresh the cached readings of a subsystem's fans. */
    method PollSubsystem(hw: Hw, s: LoclSubsystem)
      requires Named(subsystems, fans) && Lists(s.subsystemFans, Own(fans, s))
      requires OwnYamlFans(fans, s) == DescribedFans(yaml, s.name)
      modifies OwnRecords(s)`speed, OwnRecords(s)`direction, OwnRecords(s)`rpm, OwnRecords(s)`status
      ensures forall n :: n in fans && n.data.subsystem == s ==> Polled(yaml, hw, n.data)
    {
      hide Lists, Named, Poll;
      ghost var own := Own(fans, s);
      for j := 0 to |s.subsystemFans|
        invariant forall k :: 0 <= k < j ==> Polled(yaml, hw, s.subsystemFans[k].data)
      {
        ListsAt(s.subsystemFans, own, j);
        var fan := s.subsystemFans[j].data;
        assert fan.yamlFan in OwnYamlFans(fans, s);
        forall k | 0 <= k < j ensures s.subsystemFans[k].data != fan {
          OtherFan(s, k, j);
        }
        fan.speed := s.speed;
        ReadFanStatus(yaml, hw, fan);
      }
      forall n | n in fans && n.data.subsystem == s ensures Polled(yaml, hw, n.data) {
        var k := ListsHas(s.subsystemFans, own, n);
      }
    }

    lemma OtherFan(s: LoclSubsystem, k: nat, j: nat)
      requires Named(subsystems, fans) && Lists(s.subsystemFans, Own(fans, s)) && k < j < |s.subsystemFans|
      ensures s.subsystemFans[k].data != s.subsystemFans[j].data
    {
      ListsDistinct(s.subsystemFans, Own(fans, s), k, j);
      ListsAt(s.subsystemFans, Own(fans, s), k);
      ListsAt(s.subsystemFans, Own(fans, s), j);
    }

    /** Refresh the cached readings of every fan of every subsystem. */
    method PollFans(hw: Hw)
      requires Consistent() && forall n :: n in subsystems ==> n.data.valid
      modifies FanRecords()`speed, FanRecords()`direction, FanRecords()`rpm, FanRecords()`status
      ensures forall n :: n in fans ==> Polled(yaml, hw, n.data)
    {
      hide Lists, Named, Polled, HoldsSpeed, OwnYamlFans, DescribedFans;
      for i := 0 to |subsystemData|
        invariant forall n, k :: n in fans && 0 <= k < i && n.data.subsystem == subsystemData[k].data ==> Polled(yaml, hw, n.data)
      {
        ListsAt(subsystemData, subsystems, i);
        PollSubsystem(hw, subsystemData[i].data);
      }
      forall n | n in fans ensures Polled(yaml, hw, n.data) {
        OwnerListed(n);
        var k := ListsHas(subsystemData, subsystems, Node(n.data.subsystem.name, n.data.subsystem));
      }
    }

    lemma OwnerListed(n: FanNode)
      requires IndexesAgree() && n in fans
      ensures Node(n.data.subsystem.name, n.data.subsystem) in subsystems
    {
    }

    // ----- database sync -----

    /** Stage the columns of a row that differ from the cached readings of a record. */
    method StageRow(row: FanRow, fan: LoclFan) returns (now: FanRow, staged: seq<Staged>)
      ensures now == Shown(row, fan) && staged == RowDiff(row, now)
      ensures now.uuid == row.uuid && now.name == row.name && now.direction == fan.direction && now.rpm == Some(fan.rpm)
      ensures now.status == (if fan.status == 1 then "ok" else if fan.status == 2 then "fault" else "uninitialized")
      ensures now.speed == (match fan.speed case 0 => "slow" case 2 => "medium" case 3 => "fast" case 4 => "max" case _ => "normal")
    {
      now := row;
      staged := [];
      var status := FanStatus.PrintStatus(fan.status);
      if row.status != status {
        now := now.(status := status);
        staged := staged + [FanWrite(row.uuid, StatusColumn)];
      }
      assert staged == StageIf(row.status != status, row.uuid, StatusColumn);
      var speed := PrintSpeed(fan.speed);
      if row.speed != speed {
        now := now.(speed := speed);
        staged := staged + [FanWrite(row.uuid, SpeedColumn)];
      }
      if row.direction != fan.direction {
        now := now.(direction := fan.direction);
        staged := staged + [FanWrite(row.uuid, DirectionColumn)];
      }
      if row.rpm == None || row.rpm.value != fan.rpm {
        now := now.(rpm := Some(fan.rpm));
        staged := staged + [FanWrite(row.uuid, RpmColumn)];
      }
    }

    /** Look up the record of row `i` by name and bring the row in line with it, if there is one. */
    method SyncRow(i: nat) returns (found: bool, staged: seq<Staged>)
      requires i < |db.fans| && Named(subsystems, fans) && Lists(fanData, fans)
      modifies this`db
      ensures found == HasRecord(fans, old(db).fans[i].name)
      ensures found ==>
                && db == old(db).(fans := old(db).fans[i := Shown(old(db).fans[i], RecordOf(fans, old(db).fans[i].name))])
                && staged == RowDiff(old(db).fans[i], db.fans[i])
    {
      hide Lists, RowDiff, Shown;
      var row := db.fans[i];
      var at := Find(fanData, row.name);
      FindMissing(fanData, fans, row.name);
      if at < 0 {
        return false, [];
      }
      ghost var node := Node(row.name, RecordOf(fans, row.name));
      FindListed(fanData, fans, node);
      var now;
      now, staged := StageRow(row, fanData[at].data);
      db := db.(fans := db.fans[i := now]);
      found := true;
    }

    /** Bring every Fan row in line with the cached readings of its record. A row without a record
        ends the process; the rows staged before it are never committed. */
    method SyncRows() returns (crashed: bool, staged: seq<Staged>)
      requires Named(subsystems, fans) && Lists(fanData, fans)
      modifies this`db
      ensures crashed <==> exists i :: 0 <= i < |old(db).fans| && !HasRecord(fans, old(db).fans[i].name)
      ensures crashed ==> db == old(db)
      ensures db == old(db).(fans := db.fans) && |db.fans| == |old(db).fans|
      ensures !crashed ==>
                && (forall i :: 0 <= i < |db.fans| ==> db.fans[i] == Shown(old(db).fans[i], RecordOf(fans, old(db).fans[i].name)))
                && staged == Diff(old(db).fans, db.fans, |db.fans|)
    {
      hide Lists, Named, RowDiff, Shown, HasRecord;
      var was := db;
      staged := [];
      for i := 0 to |db.fans|
        invariant db == old(db).(fans := db.fans) && |db.fans| == |old(db).fans|
        invariant forall j :: 0 <= j < i ==> HasRecord(fans, old(db).fans[j].name)
        invariant forall j :: 0 <= j < i ==> db.fans[j] == Shown(old(db).fans[j], RecordOf(fans, old(db).fans[j].name))
        invariant forall j :: i <= j < |db.fans| ==> db.fans[j] == old(db).fans[j]
        invariant staged == Diff(old(db).fans, db.fans, i)
      {
        ghost var before := db.fans;
        var found, more := SyncRow(i);
        if !found {
          db := was;
          return true, [];
        }
        DiffSame(old(db).fans, before, db.fans, i);
        staged := staged + more;
      }
      crashed := false;
    }

    /** Report the hardware as initialised, once, as soon as the daemon has a row to say it in. */
    method SetCurHw() returns (staged: seq<Staged>)
      modifies this`db, this`curHwSet, this`curHwWrites
      ensures curHwSet == (old(curHwSet) || exists d :: d in old(db).daemons && d.name == "ops-fand")
      ensures db == old(db).(daemons := if old(curHwSet) then old(db).daemons else ReportedIn(old(db).daemons, DAEMON_NAME))
      ensures curHwWrites == old(curHwWrites) + (if curHwSet && !old(curHwSet) then 1 else 0)
      ensures staged == if curHwSet && !old(curHwSet) then [CurHwWrite] else []
    {
      staged := [];
      if !curHwSet {
        for i := 0 to |db.daemons|
          invariant db == old(db) && !curHwSet && curHwWrites == old(curHwWrites) && staged == []
          invariant forall j :: 0 <= j < i ==> db.daemons[j].name != DAEMON_NAME
        {
          if db.daemons[i].name == DAEMON_NAME {
            ReportedAt(db.daemons, DAEMON_NAME, i);
            db := db.(daemons := db.daemons[i := db.daemons[i].(curHw := 1)]);
            curHwSet := true;
            curHwWrites := curHwWrites + 1;
            staged := [CurHwWrite];
            assert old(db).daemons[i] in old(db).daemons;
            return;
          }
        }
        ReportedAt(db.daemons, DAEMON_NAME, |db.daemons|);
      }
    }

    /** Every Fan row finds its record exactly if each is that of a resident's described fan. */
    lemma LookupsResolveExactly()
      requires Consistent() && (forall n :: n in subsystems ==> n.data.valid)
      ensures (forall i :: 0 <= i < |db.fans| ==> HasRecord(fans, db.fans[i].name)) <==> Resolved(yaml, db, NamesOf(subsystems))
    {
      hide Lists, RecordOk, HasRecord, Described;
      forall i | 0 <= i < |db.fans| ensures HasRecord(fans, db.fans[i].name) <==> Described(yaml, NamesOf(subsystems), db.fans[i].name) {
        RecordExactlyIfDescribed(db.fans[i].name);
      }
      if Resolved(yaml, db, NamesOf(subsystems)) {
        assert forall i :: 0 <= i < |db.fans| ==> db.fans[i] in db.fans;
      }
    }

    lemma RecordExactlyIfDescribed(name: string)
      requires Consistent() && (forall n :: n in subsystems ==> n.data.valid)
      ensures HasRecord(fans, name) <==> Described(yaml, NamesOf(subsystems), name)
    {
      hide Lists, HoldsSpeed;
      if n :| n in fans && n.name == name {
        var s := n.data.subsystem;
        assert Node(s.name, s) in subsystems;
        assert RecordOk(yaml, Node(s.name, s).data, fans, bus.writes);
        assert n.data.yamlFan in OwnYamlFans(fans, s);
        assert s.name in NamesOf(subsystems) && name in DescribedNames(yaml, s.name);
      }
      if s :| s in NamesOf(subsystems) && name in DescribedNames(yaml, s) {
        var n :| n in subsystems && n.name == s;
        DescribedHasRecord(yaml, subsystems, fans, bus.writes, n.data, name);
      }
    }

    /** Push the differences between cache and database; commit if there were any. */
    method SyncDatabase() returns (crashed: bool, staged: seq<Staged>, committed: bool)
      requires Named(subsystems, fans) && Lists(fanData, fans)
      requires forall f :: f in db.fans ==> f.uuid in Referenced(db.subsystems)
      modifies this`db, this`curHwSet, this`curHwWrites
      ensures crashed <==> exists i :: 0 <= i < |old(db).fans| && !HasRecord(fans, old(db).fans[i].name)
      ensures crashed ==> db == old(db) && curHwSet == old(curHwSet) && curHwWrites == old(curHwWrites) && !committed
      ensures db == old(db).(fans := db.fans, daemons := db.daemons) && |db.fans| == |old(db).fans|
      ensures SameIdentities(old(db).fans, db.fans)
      ensures !crashed ==>
                && (forall i :: 0 <= i < |db.fans| ==> db.fans[i] == Shown(old(db).fans[i], RecordOf(fans, old(db).fans[i].name)))
                && curHwSet == (old(curHwSet) || exists d :: d in old(db).daemons && d.name == DAEMON_NAME)
                && curHwWrites == old(curHwWrites) + (if curHwSet && !old(curHwSet) then 1 else 0)
                && db.daemons == (if old(curHwSet) then old(db).daemons else ReportedIn(old(db).daemons, DAEMON_NAME))
                && staged == Diff(old(db).fans, db.fans, |db.fans|) + (if curHwSet && !old(curHwSet) then [CurHwWrite] else [])
                && (committed <==> staged != [])
    {
      hide Named, Lists, Diff, HasRecord;
      crashed, staged := SyncRows();
      committed := false;
      if crashed {
        return;
      }
      var more := SetCurHw();
      staged := staged + more;
      committed := CommitIfStaged(staged, old(db));
    }

    method CommitIfStaged(staged: seq<Staged>, ghost was: Db) returns (committed: bool)
      requires Alike(was, db) && forall f :: f in was.fans ==> f.uuid in Referenced(was.subsystems)
      modifies this`db
      ensures db == old(db) && (committed <==> staged != [])
    {
      committed := false;
      if |staged| > 0 {
        forall f | f in db.fans ensures f.uuid in Referenced(db.subsystems) {
          AlikeRow(was, db, f);
        }
        CollectNothing(db);
        db := Collect(db);
        committed := true;
      }
    }

    /** Poll the hardware into the cache, then push the cache into the database. */
    method ReadStatus(hw: Hw) returns (crashed: bool, staged: seq<Staged>, committed: bool)
      requires Consistent() && (forall n :: n in subsystems ==> n.data.valid)
      requires Linked(yaml, db, NamesOf(subsystems))
      modifies this`db, this`curHwSet, this`curHwWrites
      modifies FanRecords()`speed, FanRecords()`direction, FanRecords()`rpm, FanRecords()`status
      ensures forall n :: n in fans ==> Polled(yaml, hw, n.data)
      ensures crashed <==> !Resolved(yaml, old(db), NamesOf(subsystems))
      ensures crashed ==> db == old(db) && curHwSet == old(curHwSet) && curHwWrites == old(curHwWrites) && !committed
      ensures db == old(db).(fans := db.fans, daemons := db.daemons) && Alike(old(db), db)
      ensures !crashed ==>
                && (forall i :: 0 <= i < |db.fans| ==>
                      && HasRecord(fans, old(db).fans[i].name)
                      && db.fans[i] == Shown(old(db).fans[i], RecordOf(fans, old(db).fans[i].name)))
                && curHwSet == (old(curHwSet) || exists d :: d in old(db).daemons && d.name == DAEMON_NAME)
                && curHwWrites == old(curHwWrites) + (if curHwSet && !old(curHwSet) then 1 else 0)
                && db.daemons == (if old(curHwSet) then old(db).daemons else ReportedIn(old(db).daemons, DAEMON_NAME))
                && staged == Diff(old(db).fans, db.fans, |db.fans|) + (if curHwSet && !old(curHwSet) then [CurHwWrite] else [])
                && (committed <==> staged != [])
    {
      hide Consistent, IndexesAgree, Polled, Resolved, Diff, Named, Lists, HasRecord, Shown;
      LookupsResolveExactly();
      FlatListed();
      PollFans(hw);
      crashed, staged, committed := SyncDatabase();
    }

    lemma FlatListed()
      requires Consistent()
      ensures Named(subsystems, fans) && Lists(fanData, fans)
    {
    }

    // ----- main loop -----

    /** Process the current snapshot, whatever the sequence number says. */
    method ReconfigureNow()
      requires Valid()
      modifies this`subsystemData, this`subsystems, this`fanData, this`fans, this`db, this`seqno, this`idlSeqno, this`history
      modifies bus, Records()
      ensures Valid() && Current() && history == old(history) + [Configs(old(db))] && Configs(db) == Configs(old(db))
      ensures forall n :: n in old(subsystems) && n.name in Names(Configs(old(db))) ==> n in subsystems
      ensures forall n :: n in subsystems ==> n in old(subsystems) || fresh(n.data)
      ensures forall x :: x in fans ==>
                            x in old(fans) || (Node(x.data.subsystem.name, x.data.subsystem) !in old(subsystems) && fresh(x.data))
      ensures forall x :: x in old(fans) && Node(x.data.subsystem.name, x.data.subsystem) in subsystems ==> x in fans
      ensures db == DbPassed(yaml, old(db), NamesOf(old(subsystems)))
      ensures NamesOf(subsystems) == Residents(yaml, NamesOf(old(subsystems)), Configs(old(db)))
    {
      hide Valid, Consistent, DbPassed, Linked, TableIs, NamesOf, Names, Residents;
      ghost var db0, before := db, NamesOf(subsystems);
      ReadyToApply();
      idlSeqno := seqno;
      ApplySnapshot();
      EndPass(db0, before);
    }

    lemma ReadyToApply()
      requires Valid()
      ensures Consistent() && RegistersDisjoint(yaml) && NamesDistinct(yaml) && DistinctNames(Configs(db))
      ensures forall n :: n in subsystems ==> n.data.valid
      ensures Linked(yaml, db, NamesOf(subsystems)) && NamesOf(subsystems) == After(yaml, history).Keys
      ensures AllDistinct(history) && curHwWrites == (if curHwSet then 1 else 0)
    {
    }

    /** Note the processed snapshot. The Fan rows that the pass inserted may come back as a new
        version of the database. */
    method EndPass(ghost db0: Db, ghost before: set<string>)
      requires NamesDistinct(yaml) && RegistersDisjoint(yaml) && Consistent()
      requires forall n :: n in subsystems ==> n.data.valid && n.data.marked
      requires Linked(yaml, db0, before) && before == After(yaml, history).Keys && AllDistinct(history)
      requires TableIs(Reconfigured(yaml, before, Configs(db0)))
      requires db == DbPassed(yaml, db0, before)
      requires idlSeqno == seqno && curHwWrites == (if curHwSet then 1 else 0)
      modifies this`seqno, this`history
      ensures Valid() && Current() && history == old(history) + [Configs(db0)] && Configs(db) == Configs(db0)
      ensures NamesOf(subsystems) == Residents(yaml, before, Configs(db0))
    {
      hide Consistent, RegistersDisjoint, NamesDistinct, DbPassed, Reconfigured, Linked, TableIs, NamesOf, Names, Residents;
      LinkedDistinct(yaml, db0, before);
      TableNames(Reconfigured(yaml, before, Configs(db0)));
      ReconfiguredNames(yaml, before, Configs(db0));
      PassLinked(yaml, db0, before);
      AfterOneMore(yaml, history, Configs(db0));
      history := history + [Configs(db0)];
      var bump: nat :| true;
      seqno := seqno + bump;
    }

    lemma TableNames(t: Table)
      requires TableIs(t)
      ensures NamesOf(subsystems) == t.Keys
    {
    }

    /** The speed registers of every resident subsystem hold the setting for the speed that the
        history of processed snapshots determines. */
    lemma RegistersHoldTable()
      requires Valid()
      ensures forall k :: k in After(yaml, history) ==> HoldsSpeed(bus.writes, yaml, k, After(yaml, history)[k].speed)
    {
      hide IndexesAgree, HoldsSpeed, Linked;
      var t := After(yaml, history);
      forall k | k in t ensures HoldsSpeed(bus.writes, yaml, k, t[k].speed) {
        assert k in NamesOf(subsystems);
        var n :| n in subsystems && n.name == k;
        NodesCarryNames();
        assert EntryOf(n.data, fans) == t[k];
        assert RecordOk(yaml, n.data, fans, bus.writes);
      }
    }

    /** In every state between turns, each speed control of a resident subsystem holds the setting that its
        row in the last processed snapshot asks for: "max" in an emergency, else that of the override,
        else that of the highest level among the sensors. */
    lemma RegistersObeyRow(config: Config, op: BitOp)
      requires Valid() && |history| > 0 && config in history[|history| - 1] && config.name in After(yaml, history)
      ensures yaml(config.name).Loaded?
      ensures var info, sensors, other := yaml(config.name).info, config.tempSensors, config.otherConfig;
              var settings, held := info.settings, Bus.Register(bus.writes, op);
              op in SpeedControls(info, yaml(config.name).frus) ==>
                if "max" in sensors then held == Some(settings.max)
                else if "fan_speed_override" in other && other["fan_speed_override"] == "slow" then held == Some(settings.slow)
                else if "fan_speed_override" in other && other["fan_speed_override"] == "normal" then held == Some(settings.normal)
                else if "fan_speed_override" in other && other["fan_speed_override"] == "medium" then held == Some(settings.medium)
                else if "fan_speed_override" in other && other["fan_speed_override"] == "fast" then held == Some(settings.fast)
                else if "fan_speed_override" in other && other["fan_speed_override"] == "max" then held == Some(settings.max)
                else if "fast" in sensors then held == Some(settings.fast)
                else if "medium" in sensors then held == Some(settings.medium)
                else if "normal" in sensors then held == Some(settings.normal)
                else held == Some(settings.slow)
    {
      hide Valid, SpeedControls, RowSpeed, SpeedSetting, After;
      ResidentLoaded(config.name);
      RegistersHoldTable();
      LastRow(config);
      RowSettingByName(config, yaml(config.name).info.settings);
    }

    lemma ResidentLoaded(name: string)
      requires Valid() && name in After(yaml, history)
      ensures yaml(name).Loaded? && AllDistinct(history)
    {
      hide IndexesAgree, Linked, HoldsSpeed;
      assert name in NamesOf(subsystems);
      var n :| n in subsystems && n.name == name;
      NodesCarryNames();
      assert RecordOk(yaml, n.data, fans, bus.writes);
    }

    /** A resident's entry comes from its row in the last processed snapshot. */
    lemma LastRow(config: Config)
      requires AllDistinct(history) && |history| > 0 && config in history[|history| - 1] && config.name in After(yaml, history)
      ensures After(yaml, history)[config.name] == EntryFor(yaml, config)
    {
      hide EntryFor;
      var i :| 0 <= i < |history[|history| - 1]| && history[|history| - 1][i] == config;
      RowOfIs(history[|history| - 1], i);
    }

    /** While a subsystem is added, its controls get the setting of the override, or the normal one. */
    lemma ProvisionalSetting(config: Config, op: BitOp, writes: seq<Bus.RegWrite>)
      requires Loads(yaml, config) && op in SpeedControls(yaml(config.name).info, yaml(config.name).frus)
      ensures var settings, other := yaml(config.name).info.settings, config.otherConfig;
              var held := Bus.Register(writes + ProvisionalWrites(config), op);
              if "fan_speed_override" in other && other["fan_speed_override"] == "slow" then held == Some(settings.slow)
              else if "fan_speed_override" in other && other["fan_speed_override"] == "medium" then held == Some(settings.medium)
              else if "fan_speed_override" in other && other["fan_speed_override"] == "fast" then held == Some(settings.fast)
              else if "fan_speed_override" in other && other["fan_speed_override"] == "max" then held == Some(settings.max)
              else held == Some(settings.normal)
    {
      hide SpeedControls, SpeedSetting, SpeedWrites;
      var speed := Arbitrate(ParseSpeed(Override(config)), NORMAL);
      ProvisionalSettingByName(config, yaml(config.name).info.settings);
      SpeedWritesHold(writes, yaml, config.name, speed);
    }

    /** fand_reconfigure: nothing to do while the sequence number stands still. */
    method Reconfigure()
      requires Valid()
      modifies this`subsystemData, this`subsystems, this`fanData, this`fans, this`db, this`seqno, this`idlSeqno, this`history
      modifies bus, Records()
      ensures Valid() && Current() && history == old(history) + [Configs(old(db))] && Configs(db) == Configs(old(db))
      ensures db == DbPassed(yaml, old(db), NamesOf(old(subsystems)))
      ensures NamesOf(subsystems) == Residents(yaml, NamesOf(old(subsystems)), Configs(old(db)))
      ensures old(seqno == idlSeqno) ==> bus.writes == old(bus.writes)
      ensures old(Current()) ==> subsystems == old(subsystems) && fans == old(fans) && db == old(db)
      ensures forall n :: n in subsystems ==> n in old(subsystems) || fresh(n.data)
      ensures forall x :: x in fans ==> x in old(fans) || fresh(x.data)
    {
      hide Valid, Consistent, DbPassed, Linked, TableIs, Names, NamesOf, Residents;
      if seqno == idlSeqno {
        SkipPass();
        return;
      }
      ghost var before, beforeFans, db0, history0 := subsystems, fans, db, history;
      BeforePass();
      ReconfigureNow();
      if old(Current()) {
        UnchangedPass(before, beforeFans, db0, history0);
      }
    }

    /** A skipped pass counts as one more pass over the same snapshot. */
    ghost method SkipPass()
      requires Valid() && seqno == idlSeqno
      modifies this`history
      ensures Valid() && Current() && history == old(history) + [Configs(db)]
      ensures db == DbPassed(yaml, db, NamesOf(subsystems))
      ensures NamesOf(subsystems) == Residents(yaml, NamesOf(subsystems), Configs(db))
    {
      hide Consistent, Linked, TableIs, NamesOf, DbPassed, Residents;
      BeforePass();
      ProcessedIsStable(yaml, history, db);
      GateIsTransparent(yaml, history);
      history := history + [Configs(db)];
    }

    lemma BeforePass()
      requires Valid()
      ensures Named(subsystems, fans) && NamesOf(subsystems) == After(yaml, history).Keys
      ensures DistinctNames(Configs(db)) && Linked(yaml, db, NamesOf(subsystems))
    {
    }

    /** Processing an unchanged snapshot leaves tables and database as they were. */
    lemma UnchangedPass(before: set<SubsystemNode>, beforeFans: set<FanNode>, db0: Db, history0: seq<seq<Config>>)
      requires Valid() && history == history0 + [Configs(db0)]
      requires |history0| > 0 && history0[|history0| - 1] == Configs(db0) && DistinctNames(Configs(db0))
      requires Named(before, beforeFans) && NamesOf(before) == After(yaml, history0).Keys
      requires forall n :: n in before && n.name in Names(Configs(db0)) ==> n in subsystems
      requires forall x :: x in fans ==> x in beforeFans || Node(x.data.subsystem.name, x.data.subsystem) !in before
      requires forall x :: x in beforeFans && Node(x.data.subsystem.name, x.data.subsystem) in subsystems ==> x in fans
      requires db == DbPassed(yaml, db0, NamesOf(before))
      ensures subsystems == before && fans == beforeFans && db == db0
    {
      hide Linked, Named, Reconfigured, Valid, DbPassed, Residents, DistinctNames;
      GateIsTransparent(yaml, history0);
      BeforePass();
      ResidentsAreListed(yaml, history0);
      forall n | n in before ensures n in subsystems {
        assert n.name in NamesOf(before);
      }
      SameTables(before, beforeFans, subsystems, fans);
      ProcessedIsStable(yaml, history0, db0);
    }

    /** Other processes have changed the subsystem rows or the daemon rows. */
    method ReceiveUpdate(update: Update)
      requires Valid() && DistinctNames(update.configs)
      modifies this`db, this`seqno
      ensures Valid() && db == ApplyUpdate(old(db), update)
    {
      hide Consistent, TableIs, Linked, NamesOf;
      UpdateLinked(yaml, db, NamesOf(subsystems), update);
      db := ApplyUpdate(db, update);
      seqno := seqno + 1;
    }

    /** Every Fan row names a described fan of a subsystem listed in the last processed snapshot,
        and its speed reads back as the speed configured by that subsystem's row. */
    ghost predicate SpeedsShown()
      reads this`db, this`history
    {
      |history| > 0 &&
      forall row :: row in db.fans ==> exists config :: config in history[|history| - 1] && ShowsSpeed(row, config)
    }

    ghost predicate ShowsSpeed(row: FanRow, config: Config) {
      && row.name in DescribedNames(yaml, config.name)
      && ParseSpeed(Some(row.speed)) == RowSpeed(config)
    }

    /** The cache holds what the registers say, and every Fan row shows the cache. */
    ghost predicate CacheShown(hw: Hw)
      reads this`fans, this`db, FanRecords()
      reads set n | n in fans :: n.data.subsystem
    {
      && (forall n :: n in fans ==> Polled(yaml, hw, n.data))
      && forall i :: 0 <= i < |db.fans| ==>
           HasRecord(fans, db.fans[i].name) && db.fans[i] == Shown(db.fans[i], RecordOf(fans, db.fans[i].name))
    }

    /** cur_hw has been written, or there is no row to write it in. */
    ghost predicate DaemonReported()
      reads this`db, this`curHwSet
    {
      curHwSet || forall d :: d in db.daemons ==> d.name != DAEMON_NAME
    }

    /** fand_run. The process ends if the sync meets a Fan row without a record. */
    method Run(update: Option<Update>, contended: bool, hasLock: bool, hw: Hw)
      returns (crashed: bool, staged: seq<Staged>, committed: bool)
      requires Valid() && (update.Some? ==> DistinctNames(update.value.configs))
      modifies this`db, this`seqno, this`idlSeqno, this`curHwSet, this`curHwWrites, this`history
      modifies this`subsystemData, this`fanData, this`subsystems, this`fans, bus, Records()
      modifies FanRecords()`speed, FanRecords()`direction, FanRecords()`rpm, FanRecords()`status
      ensures Valid()
      ensures crashed <==> hasLock && !contended && !Resolvable(yaml, Received(old(db), update), NamesOf(old(subsystems)))
      ensures hasLock && !contended ==>
                && Current() && history == old(history) + [Configs(db)]
                && Configs(db) == Configs(Received(old(db), update))
                && NamesOf(subsystems) == Residents(yaml, NamesOf(old(subsystems)), Configs(db))
                && Alike(DbPassed(yaml, Received(old(db), update), NamesOf(old(subsystems))), db)
      ensures hasLock && !contended && !crashed ==> SpeedsShown() && CacheShown(hw) && DaemonReported()
      ensures hasLock && !contended && !crashed ==>
                && curHwSet == (old(curHwSet) || exists d :: d in Received(old(db), update).daemons && d.name == DAEMON_NAME)
                && db.daemons == (if old(curHwSet) then Received(old(db), update).daemons
                                  else ReportedIn(Received(old(db), update).daemons, DAEMON_NAME))
      ensures !hasLock || contended ==>
                && history == old(history) && subsystems == old(subsystems) && fans == old(fans)
                && db == Received(old(db), update)
                && staged == [] && !committed && bus.writes == old(bus.writes)
      ensures forall n :: n in subsystems ==> n in old(subsystems) || fresh(n.data)
      ensures forall x :: x in fans ==> x in old(fans) || fresh(x.data)
    {
      hide Valid, Current, SpeedsShown, CacheShown, DaemonReported, Linked, Resolvable, Resolved, Residents, DbPassed, NamesOf, Alike;
      hide ReportedIn, ApplyUpdate;
      crashed, staged, committed := false, [], false;
      if update.Some? {
        ReceiveUpdate(update.value);
      }
      if contended {
        return;
      } else if !hasLock {
        return;
      }
      ghost var received, before := db, NamesOf(subsystems);
      BeforePass();
      Reconfigure();
      PassResolvesExactly(yaml, received, before);
      PassKeepsDaemons(yaml, received, before);
      crashed, staged, committed := ReadStatusValid(hw);
    }

    /** The tables do not depend on cached readings or on the contents of the database. */
    twostate lemma TablesKept()
      requires old(TablesValid())
      requires unchanged(`subsystemData) && unchanged(`fanData) && unchanged(`subsystems) && unchanged(`fans)
      requires unchanged(`history) && unchanged(bus)
      requires forall n :: n in old(subsystems) ==> unchanged(n.data)
      ensures TablesValid()
    {
      hide Lists, HoldsSpeed, Named, UniqueKeys;
    }

    /** The poll keeps everything that holds between turns; if it gets to the end, it shows the
        configured speeds. */
    method ReadStatusValid(hw: Hw) returns (crashed: bool, staged: seq<Staged>, committed: bool)
      requires Valid() && Current()
      modifies this`db, this`curHwSet, this`curHwWrites
      modifies FanRecords()`speed, FanRecords()`direction, FanRecords()`rpm, FanRecords()`status
      ensures Valid() && Current() && Alike(old(db), db) && Configs(db) == Configs(old(db))
      ensures crashed <==> !Resolved(yaml, old(db), NamesOf(subsystems))
      ensures !crashed ==> SpeedsShown() && CacheShown(hw) && DaemonReported()
      ensures crashed ==> db == old(db) && curHwSet == old(curHwSet)
      ensures !crashed ==>
                && curHwSet == (old(curHwSet) || exists d :: d in old(db).daemons && d.name == DAEMON_NAME)
                && db.daemons == (if old(curHwSet) then old(db).daemons else ReportedIn(old(db).daemons, DAEMON_NAME))
      ensures !crashed ==>
                && (forall i :: 0 <= i < |db.fans| ==>
                      && HasRecord(fans, old(db).fans[i].name)
                      && db.fans[i] == Shown(old(db).fans[i], RecordOf(fans, old(db).fans[i].name)))
                && staged == Diff(old(db).fans, db.fans, |db.fans|) + (if curHwSet && !old(curHwSet) then [CurHwWrite] else [])
                && (committed <==> staged != [])
    {
      hide Consistent, TableIs, NamesOf, Linked, Polled, SpeedsShown, Resolved, Diff, AllDistinct, HasRecord, Shown;
      crashed, staged, committed := ReadStatus(hw);
      AlikeRows(old(db), db);
      if forall d :: d in old(db).daemons ==> d.name != DAEMON_NAME {
        ReportedNone(old(db).daemons, DAEMON_NAME);
      }
      TablesKept();
      LinksIgnoreContents(yaml, old(db), db, NamesOf(subsystems));
      if !crashed {
        assert CacheShown(hw) by {
          RowsShowCache(old(db).fans, hw);
        }
        CacheShowsSpeeds(hw);
      }
    }

    /** Rows that were set from the cache show it. */
    lemma RowsShowCache(was: seq<FanRow>, hw: Hw)
      requires |was| == |db.fans| && SameIdentities(was, db.fans) && forall n :: n in fans ==> Polled(yaml, hw, n.data)
      requires forall i :: 0 <= i < |db.fans| ==>
                 HasRecord(fans, was[i].name) && db.fans[i] == Shown(was[i], RecordOf(fans, was[i].name))
      ensures CacheShown(hw)
    {
      hide Polled, HasRecord;
    }

    lemma CacheShowsSpeeds(hw: Hw)
      requires TablesValid() && Current() && CacheShown(hw)
      ensures SpeedsShown()
    {
      hide TablesValid, Polled, ShowsSpeed, Shown, HasRecord;
      forall row | row in db.fans
        ensures exists config :: config in history[|history| - 1] && ShowsSpeed(row, config)
      {
        var i :| 0 <= i < |db.fans| && db.fans[i] == row;
        assert HasRecord(fans, db.fans[i].name);
        var config := RecordRow(hw, Node(row.name, RecordOf(fans, row.name)), row);
      }
    }

    /** A polled record shows the speed that its subsystem's row asks for. */
    lemma RecordRow(hw: Hw, n: FanNode, row: FanRow) returns (config: Config)
      requires TablesValid() && |history| > 0 && n in fans && Polled(yaml, hw, n.data) && n.name == row.name
      ensures config in history[|history| - 1] && ShowsSpeed(Shown(row, n.data), config)
    {
      hide TablesValid, After, Arbitrate, SensorMax, ParseSpeed;
      var s := n.data.subsystem;
      OwnerEntry(n);
      config := EntryRow(yaml, history, s.name);
      ParseAfterPrint(s.speed);
      ArbitrationIsSafe(Override(config), config.tempSensors, []);
    }

    /** The owner of a record is in the table, with the speed that the history determines. */
    lemma OwnerEntry(n: FanNode)
      requires TablesValid() && |history| > 0 && n in fans
      ensures AllDistinct(history) && n.name in DescribedNames(yaml, n.data.subsystem.name)
      ensures var s := n.data.subsystem;
              s.name in After(yaml, history) && After(yaml, history)[s.name].speed == s.speed
    {
      hide Lists, HoldsSpeed, After;
      var s := n.data.subsystem;
      var node := Node(s.name, s);
      assert node in subsystems;
      assert s.name in NamesOf(subsystems);
      assert EntryOf(node.data, fans) == After(yaml, history)[node.name];
      assert n.data.yamlFan in OwnYamlFans(fans, s);
    }

    /** The main loop, for any behaviour of its environment, until the process ends; `turns` counts
        the turns that were begun. */
    method Serve(events: seq<Event>) returns (crashed: bool, turns: nat)
      requires Valid() && Traced() && UpdatesOk(events)
      modifies this, bus, Records()
      modifies FanRecords()`speed, FanRecords()`direction, FanRecords()`rpm, FanRecords()`status
      ensures Valid() && Traced() && start == old(start)
      ensures turns <= |events| && past == old(past) + events[..turns] && history == ProcessedBy(Configs(start), past)
      ensures crashed <==>
                exists i :: |old(past)| <= i < |old(past) + events| && Fails(yaml, start, old(past) + events, i)
      ensures !crashed ==> turns == |events|
      ensures crashed ==> turns > 0 && Fails(yaml, start, old(past) + events, |past| - 1)
      ensures !crashed && |events| > 0 && Locked(events[|events| - 1]) ==>
                Current() && SpeedsShown() && CacheShown(events[|events| - 1].hw) && DaemonReported()
    {
      hide Valid, Traced, Current, SpeedsShown, CacheShown, DaemonReported, Fails, UpdatesOk, WorldAfter, NamesOf, Locked, ProcessedBy;
      turns := 0;
      crashed := false;
      assert past == past + events[..0];
      while turns < |events|
        invariant turns <= |events| && Valid() && Traced() && start == old(start) && past == old(past) + events[..turns]
        invariant forall j :: |old(past)| <= j < |old(past)| + turns ==> !Fails(yaml, start, old(past) + events, j)
        invariant turns > 0 && Locked(events[turns - 1]) ==>
                    Current() && SpeedsShown() && CacheShown(events[turns - 1].hw) && DaemonReported()
        invariant forall n :: n in subsystems ==> n in old(subsystems) || fresh(n.data)
        invariant forall x :: x in fans ==> x in old(fans) || fresh(x.data)
      {
        EventOk(events, turns);
        NextTurn(yaml, start, old(past), events, turns);
        crashed := Turn(events[turns]);
        turns := turns + 1;
        if crashed {
          break;
        }
      }
      HistoryDictated();
    }

    lemma HistoryDictated()
      requires Traced()
      ensures history == ProcessedBy(Configs(start), past)
    {
      WorldFollowsEvents(yaml, start, past);
    }

    /** One turn of the main loop. */
    method Turn(event: Event) returns (crashed: bool)
      requires Valid() && Traced() && (event.update.Some? ==> DistinctNames(event.update.value.configs))
      modifies this, bus, Records()
      modifies FanRecords()`speed, FanRecords()`direction, FanRecords()`rpm, FanRecords()`status
      ensures Valid() && Traced() && start == old(start) && past == old(past) + [event]
      ensures crashed <==> Fails(yaml, start, past, |old(past)|)
      ensures Locked(event) && !crashed ==> Current() && SpeedsShown() && CacheShown(event.hw) && DaemonReported()
      ensures forall n :: n in subsystems ==> n in old(subsystems) || fresh(n.data)
      ensures forall x :: x in fans ==> x in old(fans) || fresh(x.data)
    {
      hide Valid, Current, SpeedsShown, DaemonReported, CacheShown, Linked, DistinctNames, Resolvable, DbPassed, NamesOf, Residents, WorldAfter, Alike;
      ghost var db0, history0, resident := db, history, NamesOf(subsystems);
      ghost var before := past;
      BeforePass();
      past := past + [event];
      var staged, committed;
      crashed, staged, committed := Run(event.update, event.contended, event.hasLock, event.hw);
      TraceTurn(db0, history0, resident, before, event);
    }

    /** The rows and the outcome of a turn are those of the run. */
    lemma TraceTurn(db0: Db, history0: seq<seq<Config>>, resident: set<string>, before: seq<Event>, event: Event)
      requires resident == After(yaml, history0).Keys
      requires history0 == WorldAfter(yaml, start, before).history && Alike(WorldAfter(yaml, start, before).db, db0)
      requires if Locked(event) then
                 history == history0 + [Configs(Received(db0, event.update))] && Alike(DbPassed(yaml, Received(db0, event.update), resident), db)
               else
                 history == history0 && db == Received(db0, event.update)
      ensures history == WorldAfter(yaml, start, before + [event]).history
      ensures Alike(WorldAfter(yaml, start, before + [event]).db, db)
      ensures Locked(event) ==>
                (Fails(yaml, start, before + [event], |before|) <==> !Resolvable(yaml, Received(db0, event.update), resident))
      ensures !Locked(event) ==> !Fails(yaml, start, before + [event], |before|)
    {
      hide Resolvable, DbPassed, WorldAfter, Alike, Received;
      var w := WorldAfter(yaml, start, before);
      var expected, received := Received(w.db, event.update), Received(db0, event.update);
      OneMoreTurn(yaml, start, before, event);
      ReceivedAlike(w.db, db0, event.update);
      AlikeRows(expected, received);
      assert (before + [event])[|before|] == event && (before + [event])[..|before|] == before;
      if Locked(event) {
        DbPassedAlike(yaml, expected, received, resident);
        AlikeTwice(DbPassed(yaml, expected, resident), DbPassed(yaml, received, resident), db);
        if Resolvable(yaml, expected, resident) {
          ResolvableAlike(yaml, expected, received, resident);
        }
        if Resolvable(yaml, received, resident) {
          ResolvableAlike(yaml, received, expected, resident);
        }
      }
    }

    /** Polling again with the same register contents changes and commits nothing. */
    method PollAgain(hw: Hw) returns (crashed: bool, staged: seq<Staged>, committed: bool)
      requires Valid() && Current() && CacheShown(hw) && DaemonReported()
      modifies this`db, this`curHwSet, this`curHwWrites
      modifies FanRecords()`speed, FanRecords()`direction, FanRecords()`rpm, FanRecords()`status
      ensures !crashed && staged == [] && !committed && db == old(db)
      ensures Valid() && Current() && CacheShown(hw) && DaemonReported()
    {
      hide Valid, CacheShown, Diff, Resolved, HasRecord, SpeedsShown, Shown, NamesOf;
      CacheFindsRecords(hw);
      if !curHwSet {
        ReportedNone(db.daemons, DAEMON_NAME);
      }
      crashed, staged, committed := ReadStatusValid(hw);
      RowsAsBefore(hw);
      DiffEmpty(old(db).fans, db.fans, |db.fans|);
      assert old(db).fans[..|db.fans|] == old(db).fans && db.fans[..|db.fans|] == db.fans;
    }

    /** Rows that show the cache have records. */
    lemma CacheFindsRecords(hw: Hw)
      requires Valid() && CacheShown(hw)
      ensures Resolved(yaml, db, NamesOf(subsystems))
    {
      hide TableIs, Linked, HasRecord, Polled, Shown;
      LookupsResolveExactly();
    }

    /** Two polls of the same registers leave the same rows. */
    twostate lemma RowsAsBefore(hw: Hw)
      requires old(CacheShown(hw)) && CacheShown(hw)
      requires unchanged(`fans) && |db.fans| == |old(db).fans|
      requires forall n :: n in fans ==> n.data.subsystem.speed == old(n.data.subsystem.speed)
      requires forall n :: n in fans ==> n.data.subsystem.multiplier == old(n.data.subsystem.multiplier)
      requires forall n :: n in fans ==> n.data.subsystem.numerator == old(n.data.subsystem.numerator)
      requires forall i :: 0 <= i < |db.fans| ==> db.fans[i].name == old(db).fans[i].name && db.fans[i].uuid == old(db).fans[i].uuid
      ensures db.fans == old(db).fans
    {
      hide HasRecord, Poll;
      forall i | 0 <= i < |db.fans| ensures db.fans[i] == old(db).fans[i] {
        assert old(HasRecord(fans, db.fans[i].name));
        var f := RecordOf(fans, db.fans[i].name);
        assert Node(db.fans[i].name, f) in fans;
        assert Polled(yaml, hw, f) && old(Polled(yaml, hw, f));
      }
    }

    // ----- what the run says about Fan rows -----

    /** The fans column of a resident's row names the Fan rows of exactly its described fans if the
        row has been kept since the subsystem was loaded; otherwise it is empty. */
    lemma FansColumnExactly(i: nat)
      requires Valid() && Traced() && i < |db.subsystems| && db.subsystems[i].config.name in After(yaml, history)
      ensures var row := db.subsystems[i];
              if KeptSinceLoaded(yaml, start, past, row.config.name) then Complete(yaml, db, row) else row.fans == []
    {
      hide Valid, Linked, Complete, KeptSinceLoaded, WorldAfter;
      RowsCompleteExactly(yaml, start, past);
      var w := WorldAfter(yaml, start, past);
      AlikeRows(w.db, db);
      if KeptSinceLoaded(yaml, start, past, db.subsystems[i].config.name) {
        CompleteAlike(yaml, w.db, db, db.subsystems[i]);
      }
    }

    /** A resident's described fan has its Fan row exactly if the subsystem's row has been kept since
        the subsystem was loaded. */
    lemma FanRowExists(name: string, fan: YamlFan)
      requires Valid() && Traced() && FirstPassLoads(yaml, start, past)
      requires name in After(yaml, history) && fan in AllFans(Frus(yaml, name))
      ensures (exists row :: row in db.fans && row.name == FullName(name, fan.name)) <==> KeptSinceLoaded(yaml, start, past, name)
    {
      hide TablesValid, Linked, KeptSinceLoaded, WorldAfter, FirstPassLoads;
      var w := WorldAfter(yaml, start, past);
      FanRowExistsExactly(yaml, start, past, name, fan);
      AlikeRows(w.db, db);
      if row :| row in db.fans && row.name == FullName(name, fan.name) {
        AlikeRow(w.db, db, row);
      }
      if row :| row in w.db.fans && row.name == FullName(name, fan.name) {
        AlikeRow(db, w.db, row);
      }
    }

    /** After a turn with the lock, the speed of a Fan row is the level that its subsystem's row in the last
        processed snapshot asks for, by name. */
    lemma FanRowSpeed(i: nat, config: Config)
      requires Valid() && SpeedsShown() && i < |db.fans|
      requires config in history[|history| - 1] && db.fans[i].name in DescribedNames(yaml, config.name)
      ensures var speed, sensors, other := db.fans[i].speed, config.tempSensors, config.otherConfig;
              var overridden := "fan_speed_override" in other && other["fan_speed_override"] in ["slow", "normal", "medium", "fast", "max"];
              if "max" in sensors then speed == "max"
              else if overridden then speed == other["fan_speed_override"]
              else if "fast" in sensors then speed == "fast"
              else if "medium" in sensors then speed == "medium"
              else if "normal" in sensors then speed == "normal"
              else speed == "slow"
    {
      hide Consistent, TableIs, Linked, RegistersDisjoint, RowSpeed, After, DescribedNames;
      var row, last := db.fans[i], history[|history| - 1];
      assert row in db.fans;
      var other :| other in last && ShowsSpeed(row, other);
      var a :| 0 <= a < |last| && last[a] == config;
      var b :| 0 <= b < |last| && last[b] == other;
      assert other == config;
      RowSpeedByName(config);
      PrintAfterParse(row.speed);
    }

    /** What a Fan row shows is one poll of the described fan that it names, with the constants of the
        description. */
    lemma FanRowIsPoll(hw: Hw, i: nat, s: string, fan: YamlFan)
      requires Valid() && CacheShown(hw) && i < |db.fans|
      requires fan in AllFans(Frus(yaml, s)) && db.fans[i].name == FullName(s, fan.name)
      ensures yaml(s).Loaded?
      ensures var sample := Poll(yaml, hw, s, fan, yaml(s).info.multiplier, yaml(s).info.numerator);
              && db.fans[i].direction == sample.direction && db.fans[i].rpm == Some(sample.rpm)
              && db.fans[i].status == FanStatus.PrintStatus(sample.status)
    {
      hide Lists, TableIs, Linked, RegistersDisjoint, HoldsSpeed, Poll;
      var f := RecordOf(fans, db.fans[i].name);
      var n := Node(db.fans[i].name, f);
      assert n in fans && Polled(yaml, hw, f);
      assert Node(f.subsystem.name, f.subsystem) in subsystems;
      assert RecordOk(yaml, Node(f.subsystem.name, f.subsystem).data, fans, bus.writes);
      RecordOfFan(n, s, fan);
    }

    /** The record under the full name of a described fan is the record of that fan. */
    lemma RecordOfFan(n: FanNode, s: string, fan: YamlFan)
      requires Valid() && n in fans && fan in AllFans(Frus(yaml, s)) && n.name == FullName(s, fan.name)
      ensures n.data.subsystem.name == s && n.data.yamlFan == fan
    {
      hide Lists, TableIs, Linked, RegistersDisjoint, HoldsSpeed;
      var owner := n.data.subsystem;
      assert RecordOk(yaml, Node(owner.name, owner).data, fans, bus.writes);
      assert n.data.yamlFan in OwnYamlFans(fans, owner);
      assert n.name in DescribedNames(yaml, owner.name) && n.name in DescribedNames(yaml, s);
      SameSubsystem(s, fan.name, n.data.yamlFan.name);
      var all := AllFans(Frus(yaml, s));
      var a :| 0 <= a < |all| && all[a] == fan;
      var b :| 0 <= b < |all| && all[b] == n.data.yamlFan;
    }

    /** After a turn with the lock, status and direction of a Fan row are what the registers of that turn say
        about the described fan that it names; `fru` is the FRU that lists the fan. */
    lemma FanRowHealth(hw: Hw, i: nat, s: string, fan: YamlFan)
      requires Valid() && CacheShown(hw) && i < |db.fans|
      requires fan in AllFans(Frus(yaml, s)) && db.fans[i].name == FullName(s, fan.name)
      ensures Owner(Frus(yaml, s), fan).Some? && yaml(s).Loaded?
      ensures var row, fru := db.fans[i], Owner(Frus(yaml, s), fan).value;
              var present := fru.present == None || (hw(fru.present.value).Value? && hw(fru.present.value).value != 0);
              && (row.status == "fault" <==> !present || (hw(fan.fault).Value? && hw(fan.fault).value != 0))
              && (row.status == "ok" <==> present && hw(fan.fault) == Value(0))
              && (row.status == "uninitialized" <==> present && hw(fan.fault).ReadFails?)
      ensures var row, fru := db.fans[i], Owner(Frus(yaml, s), fan).value;
              row.direction == if && fru.directionDetect.Some? && hw(fru.directionDetect.value).Value?
                                  && ((hw(fru.directionDetect.value).value == 0) == (yaml(s).info.directionF2b != 0))
                               then "b2f" else "f2b"
    {
      hide Valid, CacheShown, Poll, Frus, AllFans;
      FanRowIsPoll(hw, i, s, fan);
      PollStatusExactly(yaml, hw, s, fan, yaml(s).info.multiplier, yaml(s).info.numerator);
      PollDirectionExactly(yaml, hw, s, fan, yaml(s).info.multiplier, yaml(s).info.numerator);
      assert FanStatus.STATUS_STRINGS == ["uninitialized", "ok", "fault"];
    }

    /** And its rpm is the speed counter of that fan, scaled as its description says. */
    lemma FanRowRpm(hw: Hw, i: nat, s: string, fan: YamlFan)
      requires Valid() && CacheShown(hw) && i < |db.fans|
      requires fan in AllFans(Frus(yaml, s)) && db.fans[i].name == FullName(s, fan.name)
      ensures Owner(Frus(yaml, s), fan).Some? && yaml(s).Loaded? && db.fans[i].rpm.Some?
      ensures var rpm, fru := db.fans[i].rpm.value, Owner(Frus(yaml, s), fan).value;
              var multiplier, numerator := yaml(s).info.multiplier, yaml(s).info.numerator;
              var present := fru.present == None || (hw(fru.present.value).Value? && hw(fru.present.value).value != 0);
              var low := hw(fan.speedLsb);
              var high := if fan.speedMsb.Some? then hw(fan.speedMsb.value) else Value(0);
              if !present || low.ReadFails? || high.ReadFails? then rpm == 0
              else if low.value < 256 && high.value < 256 then
                var count := low.value + 256 * high.value;
                if multiplier != 0 then
                  (rpm - count * multiplier) % 0x1_0000_0000 == 0 && (-32768 <= multiplier <= 32768 ==> rpm == count * multiplier)
                else if numerator == 0 then rpm == count
                else if count == 0 then rpm == 0
                else if numerator > 0 then rpm * count <= numerator < (rpm + 1) * count
                else (rpm - 1) * count < numerator <= rpm * count
              else true
    {
      hide Valid, CacheShown, Poll, Frus, AllFans;
      FanRowIsPoll(hw, i, s, fan);
      PollRpmExactly(yaml, hw, s, fan, yaml(s).info.multiplier, yaml(s).info.numerator);
    }

    // ----- what the hardware layer relies on -----

    /** The records of a resident subsystem, as the LED pass sees them, have unique names, and
        every described fan is among them. */
    lemma ResidentFansVisible(s: LoclSubsystem)
      requires Consistent() && Node(s.name, s) in subsystems && s.valid
      ensures NamesUnique(Sights(s.subsystemFans))
      ensures forall fan :: fan in DescribedFans(yaml, s.name) ==>
                              exists i :: 0 <= i < |s.subsystemFans| && DescribedAt(s, fan, i)
    {
      var own := Own(fans, s);
      assert Lists(s.subsystemFans, own);
      forall i, j | 0 <= i < j < |s.subsystemFans| ensures s.subsystemFans[i].data.name != s.subsystemFans[j].data.name {
        ListsDistinct(s.subsystemFans, own, i, j);
        ListsAt(s.subsystemFans, own, i);
        ListsAt(s.subsystemFans, own, j);
      }
      forall fan | fan in DescribedFans(yaml, s.name)
        ensures exists i :: 0 <= i < |s.subsystemFans| && DescribedAt(s, fan, i)
      {
        assert fan in OwnYamlFans(fans, s);
        var n :| n in fans && n.data.subsystem == s && n.data.yamlFan == fan;
        var i := ListsHas(s.subsystemFans, own, n);
        assert DescribedAt(s, fan, i);
      }
    }

    /** Node `i` of the subsystem's hash is the record of this described fan. */
    ghost predicate DescribedAt(s: LoclSubsystem, fan: YamlFan, i: nat)
      requires i < |s.subsystemFans|
      reads s`subsystemFans
    {
      var f := s.subsystemFans[i].data;
      f.subsystem == s && f.yamlFan == fan && f.name == FullName(s.name, fan.name)
    }

    /** For a resident subsystem the lookup by short name returns the one record of that fan. */
    lemma ResidentLookup(s: LoclSubsystem, fan: YamlFan)
      requires Consistent() && Node(s.name, s) in subsystems && s.valid
      requires fan in DescribedFans(yaml, s.name) && |FullName(s.name, fan.name)| <= NAME_LIMIT
      ensures var i := LookupIndex(Sights(s.subsystemFans), Truncated(FullName(s.name, fan.name)));
              0 <= i < |s.subsystemFans| && DescribedAt(s, fan, i)
    {
      hide Consistent;
      ResidentFansVisible(s);
      var i :| 0 <= i < |s.subsystemFans| && DescribedAt(s, fan, i);
      var sights := Sights(s.subsystemFans);
      assert sights[i] in sights && sights[i].name == FullName(s.name, fan.name);
      var found := LookupIndex(sights, FullName(s.name, fan.name));
      assert sights[found].name == sights[i].name;
      SameIndex(sights, found, i);
    }

    /** The presence read of a poll always has a FRU to look at. */
    lemma ResidentHasFru(n: FanNode)
      requires Consistent() && n in fans && (forall m :: m in subsystems ==> m.data.valid)
      ensures Owner(Frus(yaml, n.data.subsystem.name), n.data.yamlFan).Some?
    {
      hide Lists;
      var s := n.data.subsystem;
      assert RecordOk(yaml, Node(s.name, s).data, fans, bus.writes) by {
        assert Node(s.name, s) in subsystems;
      }
      assert n.data.yamlFan in OwnYamlFans(fans, s);
      OwnerExact(Frus(yaml, s.name), n.data.yamlFan);
    }

    /** Every full name of the subsystem's fans fits the buffer of the lookup. */
    ghost predicate NamesFit(s: LoclSubsystem) {
      forall fan :: fan in DescribedFans(yaml, s.name) ==> |FullName(s.name, fan.name)| <= NAME_LIMIT
    }

    /** No record of these fans has a cached status above `b`. */
    ghost predicate OwnAtMost(s: LoclSubsystem, fans: seq<YamlFan>, b: nat)
      reads s`subsystemFans, set node | node in s.subsystemFans :: node.data
    {
      forall k :: 0 <= k < |s.subsystemFans| && s.subsystemFans[k].data.yamlFan in fans ==> s.subsystemFans[k].data.status <= b
    }

    /** The greatest cached status of the records of these fans. */
    ghost predicate IsWorst(s: LoclSubsystem, fans: seq<YamlFan>, worst: nat)
      reads s`subsystemFans, set node | node in s.subsystemFans :: node.data
    {
      OwnAtMost(s, fans, worst) && (worst == FanStatus.UNINITIALIZED || !OwnAtMost(s, fans, worst - 1))
    }

    /** The bounds that the LED pass sees are those of the subsystem's own records. */
    lemma DominatesExactly(s: LoclSubsystem, fans: seq<YamlFan>, b: nat)
      requires Consistent() && Node(s.name, s) in subsystems && s.valid && NamesFit(s)
      requires forall fan :: fan in fans ==> fan in AllFans(Frus(yaml, s.name))
      ensures AllVisible(Sights(s.subsystemFans), s.name, fans)
      ensures Dominates(b, Sights(s.subsystemFans), s.name, fans) <==> OwnAtMost(s, fans, b)
    {
      hide Consistent;
      var sights := Sights(s.subsystemFans);
      ResidentFansVisible(s);
      forall fan | fan in fans
        ensures |FullName(s.name, fan.name)| <= NAME_LIMIT
        ensures exists i :: 0 <= i < |s.subsystemFans| && DescribedAt(s, fan, i) && sights[i] in sights
      {
        assert fan in DescribedFans(yaml, s.name);
        var i :| 0 <= i < |s.subsystemFans| && DescribedAt(s, fan, i);
        assert sights[i] in sights;
      }
      if Dominates(b, sights, s.name, fans) {
        forall k | 0 <= k < |s.subsystemFans| && s.subsystemFans[k].data.yamlFan in fans ensures s.subsystemFans[k].data.status <= b {
          ListedIsDescribed(s, k);
          assert sights[k] in sights;
        }
      }
      if OwnAtMost(s, fans, b) {
        forall fan, x | fan in fans && x in sights && x.name == FullName(s.name, fan.name) ensures x.status <= b {
          var i :| 0 <= i < |s.subsystemFans| && DescribedAt(s, fan, i);
          var j :| 0 <= j < |sights| && sights[j] == x;
          SameIndex(sights, i, j);
        }
      }
    }

    /** The LED of each FRU holds the code of the worst cached status of its fans. */
    lemma FruLedShowsWorst(s: LoclSubsystem, i: nat, writes: seq<Bus.RegWrite>)
      requires Consistent() && Node(s.name, s) in subsystems && s.valid && NamesFit(s)
      requires yaml(s.name).Loaded? && LedsDistinct(yaml(s.name).info, yaml(s.name).frus)
      requires i < |yaml(s.name).frus| && yaml(s.name).frus[i].leds.Some?
      ensures exists worst :: IsWorst(s, yaml(s.name).frus[i].fans, worst) &&
                Bus.Register(writes + LedWrites(yaml, s.name, Sights(s.subsystemFans)), yaml(s.name).frus[i].leds.value) ==
                Some(LedCode(yaml(s.name).info.ledValues, worst))
    {
      hide Consistent, OwnAtMost, LedWrites, LedCode, WorstStatus;
      var sights, fans := Sights(s.subsystemFans), yaml(s.name).frus[i].fans;
      var worst := WorstStatus(sights, s.name, fans);
      LedsHold(writes, yaml, s.name, sights);
      forall fan | fan in fans ensures fan in AllFans(Frus(yaml, s.name)) {
        InAllFans(Frus(yaml, s.name), fan);
      }
      DominatesExactly(s, fans, worst);
      WorstStatusIsLeast(sights, s.name, fans, worst);
      if worst > FanStatus.UNINITIALIZED {
        DominatesExactly(s, fans, worst - 1);
        WorstStatusIsLeast(sights, s.name, fans, worst - 1);
      }
      assert IsWorst(s, fans, worst);
    }

    /** And the LED of the subsystem holds the code of the worst of all its records, however they are
        grouped in FRUs and in whatever order they are visited. */
    lemma SubsystemLedShowsWorst(s: LoclSubsystem, writes: seq<Bus.RegWrite>)
      requires Consistent() && Node(s.name, s) in subsystems && s.valid && NamesFit(s)
      requires yaml(s.name).Loaded? && LedsDistinct(yaml(s.name).info, yaml(s.name).frus) && yaml(s.name).info.led.Some?
      ensures exists worst :: IsWorst(s, AllFans(Frus(yaml, s.name)), worst) &&
                Bus.Register(writes + LedWrites(yaml, s.name, Sights(s.subsystemFans)), yaml(s.name).info.led.value) ==
                Some(LedCode(yaml(s.name).info.ledValues, worst))
      ensures forall k :: 0 <= k < |s.subsystemFans| ==> s.subsystemFans[k].data.yamlFan in AllFans(Frus(yaml, s.name))
    {
      hide Consistent, OwnAtMost, LedWrites, LedCode, WorstFruStatus;
      var sights, frus := Sights(s.subsystemFans), Frus(yaml, s.name);
      var worst := WorstFruStatus(sights, s.name, frus);
      LedsHold(writes, yaml, s.name, sights);
      DominatesExactly(s, AllFans(frus), worst);
      WorstFruStatusIsLeast(sights, s.name, frus, worst);
      if worst > FanStatus.UNINITIALIZED {
        DominatesExactly(s, AllFans(frus), worst - 1);
        WorstFruStatusIsLeast(sights, s.name, frus, worst - 1);
      }
      assert IsWorst(s, AllFans(frus), worst);
      forall k | 0 <= k < |s.subsystemFans| ensures s.subsystemFans[k].data.yamlFan in AllFans(frus) {
        ListedIsDescribed(s, k);
      }
    }

    /** After an LED pass, whatever was written before, the LED of a FRU shows a fault if a record of one of
        its fans does, health if none does and some record is healthy, and is off if none is polled. */
    lemma FruLedShowsHealth(s: LoclSubsystem, i: nat, writes: seq<Bus.RegWrite>)
      requires Consistent() && Node(s.name, s) in subsystems && s.valid && NamesFit(s)
      requires yaml(s.name).Loaded? && LedsDistinct(yaml(s.name).info, yaml(s.name).frus)
      requires i < |yaml(s.name).frus| && yaml(s.name).frus[i].leds.Some?
      ensures var fans, values := yaml(s.name).frus[i].fans, yaml(s.name).info.ledValues;
              var led := Bus.Register(writes + LedWrites(yaml, s.name, Sights(s.subsystemFans)), yaml(s.name).frus[i].leds.value);
              if exists k :: 0 <= k < |s.subsystemFans| && s.subsystemFans[k].data.yamlFan in fans && s.subsystemFans[k].data.status > 1
              then led == Some(values.fault)
              else if exists k :: 0 <= k < |s.subsystemFans| && s.subsystemFans[k].data.yamlFan in fans && s.subsystemFans[k].data.status == 1
              then led == Some(values.good)
              else led == Some(values.off)
    {
      hide Consistent, LedWrites, NamesFit;
      FruLedShowsWorst(s, i, writes);
    }

    /** And the LED of the subsystem shows the same about all its records. */
    lemma SubsystemLedShowsHealth(s: LoclSubsystem, writes: seq<Bus.RegWrite>)
      requires Consistent() && Node(s.name, s) in subsystems && s.valid && NamesFit(s)
      requires yaml(s.name).Loaded? && LedsDistinct(yaml(s.name).info, yaml(s.name).frus) && yaml(s.name).info.led.Some?
      ensures var values := yaml(s.name).info.ledValues;
              var led := Bus.Register(writes + LedWrites(yaml, s.name, Sights(s.subsystemFans)), yaml(s.name).info.led.value);
              if exists k :: 0 <= k < |s.subsystemFans| && s.subsystemFans[k].data.status > 1 then led == Some(values.fault)
              else if exists k :: 0 <= k < |s.subsystemFans| && s.subsystemFans[k].data.status == 1 then led == Some(values.good)
              else led == Some(values.off)
    {
      hide Consistent, LedWrites, NamesFit, AllFans;
      SubsystemLedShowsWorst(s, writes);
    }

    lemma ListedIsDescribed(s: LoclSubsystem, i: nat)
      requires Consistent() && Node(s.name, s) in subsystems && s.valid && i < |s.subsystemFans|
      ensures s.subsystemFans[i].data.yamlFan in AllFans(Frus(yaml, s.name))
      ensures DescribedAt(s, s.subsystemFans[i].data.yamlFan, i)
    {
      hide Lists;
      assert Lists(s.subsystemFans, Own(fans, s)) by {
        assert Lists(Node(s.name, s).data.subsystemFans, Own(fans, Node(s.name, s).data));
      }
      ListsAt(s.subsystemFans, Own(fans, s), i);
      assert RecordOk(yaml, Node(s.name, s).data, fans, bus.writes);
      assert s.subsystemFans[i].data.yamlFan in OwnYamlFans(fans, s);
    }

    /** The names in the flat index are those described for the subsystems that the history of
        processed snapshots leaves resident. */
    lemma FlatIndexNames(name: string)
      requires Valid()
      ensures HasRecord(fans, name) <==> exists k :: k in After(yaml, history) && name in DescribedNames(yaml, k)
    {
      hide Consistent, After, Linked, HasRecord;
      BeforePass();
      RecordExactlyIfDescribed(name);
      assert Described(yaml, NamesOf(subsystems), name) <==> exists k :: k in After(yaml, history) && name in DescribedNames(yaml, k);
    }

    /** No two Fan rows share a name, and each has a record exactly if it is that of a described fan
        of a subsystem that the history leaves resident. */
    lemma FanRowsSound()
      requires Valid()
      ensures forall i, j :: 0 <= i < j < |db.fans| ==> db.fans[i].name != db.fans[j].name
      ensures (forall i :: 0 <= i < |db.fans| ==> HasRecord(fans, db.fans[i].name)) <==> Resolved(yaml, db, After(yaml, history).Keys)
    {
      hide Consistent;
      BeforePass();
      LookupsResolveExactly();
    }
  }
}
