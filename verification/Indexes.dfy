/** Agreement between the subsystem table, the fans of each subsystem, and the flat fan index. */
module Indexes {
  import opened Platform
  import FanSpeed
  import FanStatus
  import opened Naming
  import opened Shash
  import Bus
  import opened Records
  import Controls
  import Readings
  import Database
  import Snapshot

  type SubsystemNode = Node<LoclSubsystem>
  type FanNode = Node<LoclFan>

  /** The fans whose back pointer names this subsystem. */
  ghost function Own(fans: set<FanNode>, s: LoclSubsystem): set<FanNode> {
    set n | n in fans && n.data.subsystem == s
  }

  /** Every node carries its record's name, no name occurs twice, and every fan's back pointer
      names a subsystem of the table. */
  ghost predicate Named(subsystems: set<SubsystemNode>, fans: set<FanNode>) {
    && (forall n :: n in subsystems ==> n == Node(n.data.name, n.data))
    && (forall n :: n in fans ==> n == Node(n.data.name, n.data))
    && UniqueKeys(subsystems) && UniqueKeys(fans)
    && (forall n :: n in fans ==>
          && Node(n.data.subsystem.name, n.data.subsystem) in subsystems
          && n.name == FullName(n.data.subsystem.name, n.data.yamlFan.name))
  }

  lemma NamedWithSubsystem(subsystems: set<SubsystemNode>, fans: set<FanNode>, s: LoclSubsystem)
    requires Named(subsystems, fans) && forall n :: n in subsystems ==> n.name != s.name
    ensures Named(subsystems + {Node(s.name, s)}, fans)
    ensures Own(fans, s) == {}
  {
  }

  lemma NamedWithFan(subsystems: set<SubsystemNode>, fans: set<FanNode>, f: LoclFan)
    requires Named(subsystems, fans) && forall n :: n in fans ==> n.name != f.name
    requires Node(f.subsystem.name, f.subsystem) in subsystems
    requires f.name == FullName(f.subsystem.name, f.yamlFan.name)
    ensures Named(subsystems, fans + {Node(f.name, f)})
  {
  }

  ghost function OwnYamlFans(fans: set<FanNode>, s: LoclSubsystem): set<YamlFan> {
    set n | n in fans && n.data.subsystem == s :: n.data.yamlFan
  }

  /** A valid record mirrors its description, and its registers hold its arbitrated speed;
      a record that failed to load has no fans. */
  ghost predicate RecordOk(yaml: Yaml, s: LoclSubsystem, fans: set<FanNode>, writes: seq<Bus.RegWrite>)
    reads s`valid, s`multiplier, s`numerator, s`fanSpeed, s`fanSpeedOverride, s`speed
  {
    if s.valid then
      && yaml(s.name).Loaded? && |yaml(s.name).frus| > 0
      && s.multiplier == yaml(s.name).info.multiplier && s.numerator == yaml(s.name).info.numerator
      && OwnYamlFans(fans, s) == DescribedFans(yaml, s.name)
      && s.speed == FanSpeed.Arbitrate(s.fanSpeedOverride, s.fanSpeed)
      && Controls.HoldsSpeed(writes, yaml, s.name, s.speed)
    else Own(fans, s) == {}
  }

  lemma OwnWithout(fans: set<FanNode>, n: FanNode, s: LoclSubsystem)
    ensures Own(fans - {n}, s) == Own(fans, s) - {n}
    ensures n.data.subsystem != s ==> Own(fans - {n}, s) == Own(fans, s)
  {
  }

  lemma OwnWith(fans: set<FanNode>, n: FanNode, s: LoclSubsystem)
    ensures Own(fans + {n}, s) == if n.data.subsystem == s then Own(fans, s) + {n} else Own(fans, s)
  {
  }

  /** Records have been added to `before` for exactly the first `n` fans, all owned by `s`. */
  ghost predicate Grown(before: set<FanNode>, fans: set<FanNode>, s: LoclSubsystem, all: seq<YamlFan>, n: nat)
    requires n <= |all|
  {
    && before <= fans
    && (forall x :: x in fans && x !in before ==> x.data.subsystem == s && x.data.yamlFan in all[..n])
    && (forall i :: 0 <= i < n ==> all[i] in OwnYamlFans(fans, s))
  }

  lemma NothingGrown(fans: set<FanNode>, s: LoclSubsystem, all: seq<YamlFan>)
    ensures Grown(fans, fans, s, all, 0)
  {
  }

  lemma GrownOneMore(before: set<FanNode>, fans: set<FanNode>, s: LoclSubsystem, all: seq<YamlFan>, n: nat, x: FanNode)
    requires n < |all| && Grown(before, fans, s, all, n)
    requires x.data.subsystem == s && x.data.yamlFan == all[n]
    ensures Grown(before, fans + {x}, s, all, n + 1)
  {
    assert all[..n + 1] == all[..n] + [all[n]];
    assert x in fans + {x};
    forall i | 0 <= i < n ensures all[i] in OwnYamlFans(fans + {x}, s) {
      var y :| y in fans && y.data.subsystem == s && y.data.yamlFan == all[i];
      assert y in fans + {x};
    }
  }

  lemma GrownAll(before: set<FanNode>, fans: set<FanNode>, s: LoclSubsystem, all: seq<YamlFan>)
    requires Grown(before, fans, s, all, |all|) && Own(before, s) == {}
    ensures OwnYamlFans(fans, s) == set f | f in all
    ensures before <= fans && forall x :: x in fans && x !in before ==> x.data.subsystem == s
  {
    assert all[..|all|] == all;
    forall x | x in fans && x.data.subsystem == s ensures x.data.yamlFan in all {
      assert x in before ==> x in Own(before, s);
    }
  }

  /** The next described fan has a name that no record has yet. */
  lemma NextNameIsFree(yaml: Yaml, subsystems: set<SubsystemNode>, before: set<FanNode>, fans: set<FanNode>, s: LoclSubsystem,
                       all: seq<YamlFan>, n: nat)
    requires n < |all| && Named(subsystems, fans) && Grown(before, fans, s, all, n)
    requires all == AllFans(Frus(yaml, s.name)) && FanNamesDistinct(all)
    requires forall x :: x in before ==> x.name !in DescribedNames(yaml, s.name)
    ensures forall x :: x in fans ==> x.name != FullName(s.name, all[n].name)
  {
    assert all[n] in all;
    forall x | x in fans ensures x.name != FullName(s.name, all[n].name) {
      if x in before {
        assert FullName(s.name, all[n].name) in DescribedNames(yaml, s.name);
      } else {
        var i :| 0 <= i < n && all[..n][i] == x.data.yamlFan;
        if x.name == FullName(s.name, all[n].name) {
          SameSubsystem(s.name, x.data.yamlFan.name, all[n].name);
        }
      }
    }
  }

  /** No record carries a name described for a subsystem outside the table. */
  lemma NewSubsystemNamesFree(yaml: Yaml, subsystems: set<SubsystemNode>, fans: set<FanNode>, writes: seq<Bus.RegWrite>, name: string)
    requires NamesDistinct(yaml) && Named(subsystems, fans)
    requires forall n :: n in subsystems ==> n.name != name && RecordOk(yaml, n.data, fans, writes)
    ensures forall n :: n in fans ==> n.name !in DescribedNames(yaml, name)
  {
    forall n | n in fans ensures n.name !in DescribedNames(yaml, name) {
      var owner := n.data.subsystem;
      var node := Node(owner.name, owner);
      assert node in subsystems;
      assert RecordOk(yaml, node.data, fans, writes);
      assert n in Own(fans, owner);
      assert n.data.yamlFan in OwnYamlFans(fans, owner);
      assert n.name in DescribedNames(yaml, owner.name);
      assert owner.name != name;
    }
  }

  /** A record depends only on its own fans. */
  lemma RecordUnaffectedByFans(yaml: Yaml, o: LoclSubsystem, before: set<FanNode>, fans: set<FanNode>, writes: seq<Bus.RegWrite>)
    requires forall x :: x in before && x.data.subsystem == o ==> x in fans
    requires forall x :: x in fans && x.data.subsystem == o ==> x in before
    ensures RecordOk(yaml, o, before, writes) == RecordOk(yaml, o, fans, writes)
    ensures OwnYamlFans(before, o) == OwnYamlFans(fans, o)
  {
    assert Own(fans, o) == Own(before, o);
    assert OwnYamlFans(fans, o) == OwnYamlFans(before, o);
  }

  /** A record is not affected by speed changes of another subsystem. */
  lemma RecordUnaffectedBySpeed(yaml: Yaml, o: LoclSubsystem, fans: set<FanNode>, writes: seq<Bus.RegWrite>, other: string, speed: int)
    requires RecordOk(yaml, o, fans, writes) && o.name != other && Controls.RegistersDisjoint(yaml)
    ensures RecordOk(yaml, o, fans, writes + Controls.SpeedWrites(yaml, other, speed))
  {
    if o.valid {
      Controls.OtherSpeedWritesKeep(writes, yaml, o.name, o.speed, other, speed);
    }
  }

  /** A record is not affected by any LED pass. */
  lemma RecordUnaffectedByLeds(yaml: Yaml, o: LoclSubsystem, fans: set<FanNode>, writes: seq<Bus.RegWrite>, other: string, records: seq<Controls.Sight>)
    requires RecordOk(yaml, o, fans, writes) && Controls.RegistersDisjoint(yaml)
    ensures RecordOk(yaml, o, fans, writes + Controls.LedWrites(yaml, other, records))
  {
    if o.valid {
      Controls.LedWritesKeep(writes, yaml, o.name, o.speed, other, records);
    }
  }

  /** The setting that a row asks for: "max" in an emergency, else that of the override, else that of the
      highest level among the sensors. */
  lemma RowSettingByName(config: Database.Config, settings: SpeedSettings)
    ensures var sensors, other := config.tempSensors, config.otherConfig;
            var setting := Controls.SpeedSetting(settings, Snapshot.RowSpeed(config));
            if "max" in sensors then setting == settings.max
            else if "fan_speed_override" in other && other["fan_speed_override"] == "slow" then setting == settings.slow
            else if "fan_speed_override" in other && other["fan_speed_override"] == "normal" then setting == settings.normal
            else if "fan_speed_override" in other && other["fan_speed_override"] == "medium" then setting == settings.medium
            else if "fan_speed_override" in other && other["fan_speed_override"] == "fast" then setting == settings.fast
            else if "fan_speed_override" in other && other["fan_speed_override"] == "max" then setting == settings.max
            else if "fast" in sensors then setting == settings.fast
            else if "medium" in sensors then setting == settings.medium
            else if "normal" in sensors then setting == settings.normal
            else setting == settings.slow
  {
    hide Snapshot.RowSpeed, Controls.SpeedSetting, FanSpeed.PrintSpeed;
    Snapshot.RowSpeedByName(config);
    Controls.SettingByName(settings, Snapshot.RowSpeed(config));
  }

  /** Before its row is processed, a subsystem gets the setting of the override, or the normal one. */
  lemma ProvisionalSettingByName(config: Database.Config, settings: SpeedSettings)
    ensures var other := config.otherConfig;
            var speed := FanSpeed.Arbitrate(FanSpeed.ParseSpeed(Database.Override(config)), FanSpeed.NORMAL);
            var setting := Controls.SpeedSetting(settings, speed);
            if "fan_speed_override" in other && other["fan_speed_override"] == "slow" then setting == settings.slow
            else if "fan_speed_override" in other && other["fan_speed_override"] == "medium" then setting == settings.medium
            else if "fan_speed_override" in other && other["fan_speed_override"] == "fast" then setting == settings.fast
            else if "fan_speed_override" in other && other["fan_speed_override"] == "max" then setting == settings.max
            else setting == settings.normal
  {
    hide Controls.SpeedSetting, FanSpeed.PrintSpeed;
    Snapshot.ProvisionalSpeedByName(config);
    Controls.SettingByName(settings, FanSpeed.Arbitrate(FanSpeed.ParseSpeed(Database.Override(config)), FanSpeed.NORMAL));
  }

  ghost function NamesOf(subsystems: set<SubsystemNode>): set<string> {
    set n | n in subsystems :: n.name
  }

  /** The table grows during a pass by exactly the names that the rows bring. */
  ghost predicate PassedNames(subsystems: set<SubsystemNode>, before: set<SubsystemNode>, names: set<string>) {
    && before <= subsystems
    && (forall n :: n in subsystems && n !in before ==> n.name in names && n.name !in NamesOf(before))
    && names <= NamesOf(subsystems)
  }

  /** A name that no earlier row has brought is in the table only if it was there before the pass. */
  lemma KnownBefore(subsystems: set<SubsystemNode>, before: set<SubsystemNode>, names: set<string>, name: string)
    requires PassedNames(subsystems, before, names) && name !in names
    ensures before <= subsystems
    ensures forall n :: n in subsystems && n.name == name ==> n in before
    ensures name in NamesOf(before) <==> exists n :: n in subsystems && n.name == name
  {
  }

  lemma NamesAfterRow(subsystems: set<SubsystemNode>, before: set<SubsystemNode>, names: set<string>, s: LoclSubsystem)
    requires PassedNames(subsystems, before, names) && s.name !in names
    requires forall n :: n in subsystems && n.name == s.name ==> n == Node(s.name, s)
    ensures PassedNames(subsystems + {Node(s.name, s)}, before, names + {s.name})
  {
    forall k | k in names + {s.name} ensures k in NamesOf(subsystems + {Node(s.name, s)}) {
      if k == s.name {
        assert Node(s.name, s) in subsystems + {Node(s.name, s)};
      } else {
        var n :| n in subsystems && n.name == k;
        assert n in subsystems + {Node(s.name, s)};
      }
    }
  }

  /** The record of a row that has been processed in the current pass. */
  ghost predicate Processed(yaml: Yaml, config: Database.Config, s: LoclSubsystem, wasResident: bool)
    reads s`valid, s`marked, s`fanSpeed, s`fanSpeedOverride
  {
    && s.name == config.name
    && s.valid == (wasResident || Database.Loads(yaml, config))
    && s.marked == s.valid
    && (s.valid ==> s.fanSpeed == FanSpeed.SensorMax(config.tempSensors) && s.fanSpeedOverride == FanSpeed.ParseSpeed(Database.Override(config)))
  }

  ghost function EntryOf(s: LoclSubsystem, fans: set<FanNode>): Snapshot.Entry
    reads s`fanSpeed, s`fanSpeedOverride, s`speed, s`multiplier, s`numerator
  {
    Snapshot.Entry(s.fanSpeed, s.fanSpeedOverride, s.speed, s.multiplier, s.numerator, OwnYamlFans(fans, s))
  }

  /** A processed record in good order is what its row asks for. */
  lemma ProcessedEntry(yaml: Yaml, config: Database.Config, s: LoclSubsystem, wasResident: bool, fans: set<FanNode>, writes: seq<Bus.RegWrite>)
    requires Processed(yaml, config, s, wasResident) && RecordOk(yaml, s, fans, writes) && s.valid
    ensures EntryOf(s, fans) == Snapshot.EntryFor(yaml, config)
  {
  }

  /** The cached readings of a fan are what these registers say now. */
  ghost predicate Polled(yaml: Yaml, hw: Readings.Hw, f: LoclFan)
    reads f, f.subsystem`speed, f.subsystem`multiplier, f.subsystem`numerator
  {
    && f.speed == f.subsystem.speed
    && Readings.Sample(f.direction, f.rpm, f.status) ==
       Readings.Poll(yaml, hw, f.subsystem.name, f.yamlFan, f.subsystem.multiplier, f.subsystem.numerator)
  }

  /** A Fan row that shows the cached readings of a record. */
  ghost function Shown(row: Database.FanRow, f: LoclFan): Database.FanRow
    reads f
  {
    Database.FanRow(row.uuid, row.name, FanStatus.PrintStatus(f.status), f.direction, FanSpeed.PrintSpeed(f.speed), Some(f.rpm))
  }

  ghost predicate HasRecord(fans: set<FanNode>, name: string) {
    exists n :: n in fans && n.name == name
  }

  /** The record of this full name; the only one when names are unique. */
  ghost function RecordOf(fans: set<FanNode>, name: string): (f: LoclFan)
    requires HasRecord(fans, name)
    ensures Node(name, f) in fans
  {
    var n :| n in fans && n.name == name;
    n.data
  }

  /** A described fan of a valid subsystem has a record under its full name. */
  lemma DescribedHasRecord(yaml: Yaml, subsystems: set<SubsystemNode>, fans: set<FanNode>, writes: seq<Bus.RegWrite>, s: LoclSubsystem, name: string)
    requires Named(subsystems, fans) && RecordOk(yaml, s, fans, writes) && s.valid
    requires name in DescribedNames(yaml, s.name)
    ensures exists n :: n in fans && n.name == name && n.data.subsystem == s
  {
    var f :| f in AllFans(Frus(yaml, s.name)) && FullName(s.name, f.name) == name;
    assert f in DescribedFans(yaml, s.name);
    assert f in OwnYamlFans(fans, s);
  }

  ghost function FansOfAny(fans: set<FanNode>, gone: set<LoclSubsystem>): set<FanNode> {
    set n | n in fans && n.data.subsystem in gone
  }

  /** Without unique full names: dropping the fans of these subsystems by name leaves exactly the fans
      of the others in the flat index, for every iteration order, exactly when no dropped fan shares
      its full name with a fan that stays. */
  lemma SweepRightExactly(fans: set<FanNode>, gone: set<LoclSubsystem>)
    ensures (forall n, m :: n in fans && m in fans && n.data.subsystem in gone && m.data.subsystem !in gone ==> n.name != m.name)
            <==>
            forall nodes, order :: Lists(nodes, fans) && Lists(order, FansOfAny(fans, gone)) ==>
              Lists(DeletedByKey(nodes, order), fans - FansOfAny(fans, gone))
  {
    DeletesByKeyExactly(fans, FansOfAny(fans, gone));
  }

  /** Fan "b-c" of subsystem "a" and fan "c" of subsystem "a-b" share a full name: when "a" is swept, its
      freed record can stay in the flat index, and the live one goes. */
  lemma SweepCanKeepFreedFan(f: LoclFan, g: LoclFan)
    requires f.subsystem.name == "a" && f.yamlFan.name == "b-c" && g.subsystem.name == "a-b" && g.yamlFan.name == "c"
    requires f.name == FullName("a", "b-c") && g.name == FullName("a-b", "c")
    ensures var freed, live := Node(f.name, f), Node(g.name, g);
            && f.name == g.name && Lists([live, freed], {live, freed}) && FansOfAny({live, freed}, {f.subsystem}) == {freed}
            && DeletedByKey([live, freed], [freed]) == [freed]
  {
    var freed, live := Node(f.name, f), Node(g.name, g);
    assert FullName("a", "b-c") == "a-b-c" == FullName("a-b", "c");
    assert f.subsystem.name != g.subsystem.name && freed.data != live.data;
    assert [live, freed][1..] == [freed] && [freed][1..] == [];
    assert {live, freed} - {live} == {freed} && {freed} - {freed} == {};
    assert Deleted([live, freed], 0) == [freed];
  }

  /** If the same names stay resident, and residents keep their records, nothing has changed. */
  lemma SameTables(before: set<SubsystemNode>, beforeFans: set<FanNode>, after: set<SubsystemNode>, afterFans: set<FanNode>)
    requires Named(before, beforeFans) && Named(after, afterFans)
    requires NamesOf(after) == NamesOf(before) && before <= after
    requires forall x :: x in afterFans ==> x in beforeFans || Node(x.data.subsystem.name, x.data.subsystem) !in before
    requires forall x :: x in beforeFans && Node(x.data.subsystem.name, x.data.subsystem) in after ==> x in afterFans
    ensures after == before && afterFans == beforeFans
  {
    forall n | n in after ensures n in before {
      assert n.name in NamesOf(before);
      var m :| m in before && m.name == n.name;
    }
  }
}
