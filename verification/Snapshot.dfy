/** What the daemon's tables should be, as a function of database snapshots alone. */
module Snapshot {
  import opened Platform
  import FanSpeed
  import Naming
  import opened Database

  /** The settled part of a subsystem record, without cached readings. */
  datatype Entry = Entry(
    sensorSpeed: FanSpeed.Speed,
    override: FanSpeed.Speed,
    speed: FanSpeed.Speed,
    multiplier: Int32,
    numerator: Int32,
    fans: set<YamlFan>)

  type Table = map<string, Entry>

  /** The configured speed of a row: its override against its highest sensor. */
  function RowSpeed(config: Config): FanSpeed.Speed {
    FanSpeed.Arbitrate(FanSpeed.ParseSpeed(Override(config)), FanSpeed.SensorMax(config.tempSensors))
  }

  /** The level that a row gets, by name: "max" if a sensor says so; otherwise the override, if it names
      a level; otherwise the highest level among the sensors, "slow" without any. */
  lemma RowSpeedByName(config: Config)
    ensures var name := FanSpeed.PrintSpeed(RowSpeed(config));
            var sensors, other := config.tempSensors, config.otherConfig;
            var overridden := "fan_speed_override" in other && other["fan_speed_override"] in ["slow", "normal", "medium", "fast", "max"];
            && ("max" in sensors ==> name == "max")
            && ("max" !in sensors && overridden ==> name == other["fan_speed_override"])
            && ("max" !in sensors && !overridden ==>
                  if "fast" in sensors then name == "fast"
                  else if "medium" in sensors then name == "medium"
                  else if "normal" in sensors then name == "normal"
                  else name == "slow")
    ensures 0 <= RowSpeed(config) <= 4
  {
    FanSpeed.LevelsOfNames();
    FanSpeed.HighestByName(config.tempSensors);
    FanSpeed.ArbitrationIsSafe(Override(config), config.tempSensors, []);
    assert FanSpeed.SPEED_STRINGS == ["slow", "normal", "medium", "fast", "max"];
  }

  /** The level of a new subsystem before its row is processed: sensors count as "normal". */
  lemma ProvisionalSpeedByName(config: Config)
    ensures var name := FanSpeed.PrintSpeed(FanSpeed.Arbitrate(FanSpeed.ParseSpeed(Override(config)), FanSpeed.NORMAL));
            var other := config.otherConfig;
            var overridden := "fan_speed_override" in other && other["fan_speed_override"] in ["slow", "normal", "medium", "fast", "max"];
            name == if overridden then other["fan_speed_override"] else "normal"
  {
    FanSpeed.LevelsOfNames();
    assert FanSpeed.SPEED_STRINGS == ["slow", "normal", "medium", "fast", "max"];
    if Override(config).Some? {
      FanSpeed.PrintAfterParse(Override(config).value);
    }
  }

  function EntryFor(yaml: Yaml, config: Config): Entry {
    Entry(
      FanSpeed.SensorMax(config.tempSensors),
      FanSpeed.ParseSpeed(Override(config)),
      RowSpeed(config),
      if yaml(config.name).Loaded? then yaml(config.name).info.multiplier else 0,
      if yaml(config.name).Loaded? then yaml(config.name).info.numerator else 0,
      Naming.DescribedFans(yaml, config.name))
  }

  function Names(configs: seq<Config>): set<string> {
    set config | config in configs :: config.name
  }

  lemma NamesNext(configs: seq<Config>, i: nat)
    requires i < |configs|
    ensures Names(configs[..i + 1]) == Names(configs[..i]) + {configs[i].name}
    ensures DistinctNames(configs) ==> configs[i].name !in Names(configs[..i])
  {
    assert configs[..i + 1] == configs[..i] + [configs[i]];
  }

  /** The row of this name; the only one when names are distinct. */
  ghost function RowOf(configs: seq<Config>, name: string): (config: Config)
    requires name in Names(configs)
    ensures config in configs && config.name == name
  {
    var config :| config in configs && config.name == name;
    config
  }

  lemma RowOfIs(configs: seq<Config>, i: nat)
    requires DistinctNames(configs) && i < |configs|
    ensures configs[i].name in Names(configs) && RowOf(configs, configs[i].name) == configs[i]
  {
    var config := configs[i];
    assert config in configs;
    var row := RowOf(configs, config.name);
    var j :| 0 <= j < |configs| && configs[j] == row;
    assert j == i;
  }

  /** One reconfiguration: rows that were resident stay, rows that load now join, all others
      leave; everything recorded comes from the snapshot. */
  ghost function Reconfigured(yaml: Yaml, resident: set<string>, configs: seq<Config>): Table {
    map name | name in Names(configs) && (name in resident || Loads(yaml, RowOf(configs, name))) ::
      EntryFor(yaml, RowOf(configs, name))
  }

  /** The table after a history of processed snapshots, starting from empty tables. */
  ghost function After(yaml: Yaml, history: seq<seq<Config>>): Table {
    if |history| == 0 then map[]
    else Reconfigured(yaml, After(yaml, history[..|history| - 1]).Keys, history[|history| - 1])
  }

  lemma AfterOneMore(yaml: Yaml, history: seq<seq<Config>>, configs: seq<Config>)
    ensures After(yaml, history + [configs]) == Reconfigured(yaml, After(yaml, history).Keys, configs)
  {
    assert (history + [configs])[..|history|] == history;
  }

  lemma AfterOnly(yaml: Yaml, configs: seq<Config>)
    ensures After(yaml, [configs]) == Reconfigured(yaml, {}, configs)
  {
    assert [] + [configs] == [configs];
    AfterOneMore(yaml, [], configs);
    assert After(yaml, []).Keys == {};
  }

  lemma ReconfiguredTwice(yaml: Yaml, resident: set<string>, configs: seq<Config>)
    ensures Reconfigured(yaml, Reconfigured(yaml, resident, configs).Keys, configs) == Reconfigured(yaml, resident, configs)
  {
  }

  /** Processing an unchanged snapshot again changes nothing: the sequence-number gate may skip it. */
  lemma GateIsTransparent(yaml: Yaml, history: seq<seq<Config>>)
    requires |history| > 0
    ensures After(yaml, history + [history[|history| - 1]]) == After(yaml, history)
  {
    var n := |history| - 1;
    AfterOneMore(yaml, history, history[n]);
    ReconfiguredTwice(yaml, After(yaml, history[..n]).Keys, history[n]);
  }

  /** Incremental maintenance gives what a rebuild from this snapshot gives, exactly when
      every row that is still resident would load now. */
  lemma RebuildExactly(yaml: Yaml, resident: set<string>, configs: seq<Config>)
    requires DistinctNames(configs)
    ensures Reconfigured(yaml, resident, configs) == Reconfigured(yaml, {}, configs)
            <==> forall config :: config in configs && config.name in resident ==> Loads(yaml, config)
  {
    var incremental := Reconfigured(yaml, resident, configs);
    var rebuilt := Reconfigured(yaml, {}, configs);
    forall config | config in configs ensures RowOf(configs, config.name) == config {
      var i :| 0 <= i < |configs| && configs[i] == config;
      RowOfIs(configs, i);
    }
    if config :| config in configs && config.name in resident && !Loads(yaml, config) {
      assert config.name in incremental && config.name !in rebuilt;
    }
  }

  /** Whether each subsystem name loads or not is the same in all snapshots. */
  ghost predicate LoadsFixed(yaml: Yaml, history: seq<seq<Config>>) {
    forall i, j, a, b ::
      (0 <= i < |history| && 0 <= j < |history| && a in history[i] && b in history[j] && a.name == b.name)
      ==> Loads(yaml, a) == Loads(yaml, b)
  }

  ghost predicate AllDistinct(history: seq<seq<Config>>) {
    forall i :: 0 <= i < |history| ==> DistinctNames(history[i])
  }

  /** A name is resident exactly when its row loaded in some processed snapshot and has been
      present in every processed snapshot since. */
  ghost predicate ResidentSince(yaml: Yaml, history: seq<seq<Config>>, name: string) {
    exists j :: 0 <= j < |history| && LoadedAt(yaml, history[j], name) && PresentSince(history, j, name)
  }

  ghost predicate LoadedAt(yaml: Yaml, configs: seq<Config>, name: string) {
    exists config :: config in configs && config.name == name && Loads(yaml, config)
  }

  ghost predicate PresentSince(history: seq<seq<Config>>, j: nat, name: string) {
    forall k :: j <= k < |history| ==> name in Names(history[k])
  }

  lemma {:induction false} ResidencyExactly(yaml: Yaml, history: seq<seq<Config>>, name: string)
    requires AllDistinct(history)
    ensures name in After(yaml, history) <==> ResidentSince(yaml, history, name)
  {
    if |history| > 0 {
      var n := |history| - 1;
      ResidencyExactly(yaml, history[..n], name);
      LoadedRow(yaml, history[n], name);
      SinceOneMore(yaml, history[..n], history[n], name);
      assert history == history[..n] + [history[n]];
      AfterOneMore(yaml, history[..n], history[n]);
    }
  }

  lemma SinceOneMore(yaml: Yaml, before: seq<seq<Config>>, configs: seq<Config>, name: string)
    ensures ResidentSince(yaml, before + [configs], name) <==>
            LoadedAt(yaml, configs, name) || (ResidentSince(yaml, before, name) && name in Names(configs))
  {
    var history := before + [configs];
    var n := |before|;
    assert forall k :: 0 <= k < n ==> history[k] == before[k];
    assert history[n] == configs;
    if LoadedAt(yaml, configs, name) {
      assert LoadedAt(yaml, history[n], name) && PresentSince(history, n, name);
    } else if ResidentSince(yaml, before, name) && name in Names(configs) {
      var j :| 0 <= j < n && LoadedAt(yaml, before[j], name) && PresentSince(before, j, name);
      assert LoadedAt(yaml, history[j], name) && PresentSince(history, j, name);
    }
    if ResidentSince(yaml, history, name) {
      var j :| 0 <= j < |history| && LoadedAt(yaml, history[j], name) && PresentSince(history, j, name);
      if j < n {
        assert LoadedAt(yaml, before[j], name) && PresentSince(before, j, name);
      }
    }
  }

  lemma LoadedRow(yaml: Yaml, configs: seq<Config>, name: string)
    requires DistinctNames(configs)
    ensures LoadedAt(yaml, configs, name) <==> name in Names(configs) && Loads(yaml, RowOf(configs, name))
  {
    if config :| config in configs && config.name == name && Loads(yaml, config) {
      var i :| 0 <= i < |configs| && configs[i] == config;
      RowOfIs(configs, i);
    }
  }

  /** The incremental table equals the one built from empty tables with only the last snapshot. */
  lemma IncrementalEqualsRebuild(yaml: Yaml, history: seq<seq<Config>>)
    requires |history| > 0 && AllDistinct(history) && LoadsFixed(yaml, history)
    ensures After(yaml, history) == After(yaml, [history[|history| - 1]])
  {
    var n := |history| - 1;
    var before := history[..n];
    forall config | config in history[n] && config.name in After(yaml, before) ensures Loads(yaml, config) {
      StillLoads(yaml, history, config);
    }
    RebuildExactly(yaml, After(yaml, before).Keys, history[n]);
    AfterOnly(yaml, history[n]);
  }

  lemma StillLoads(yaml: Yaml, history: seq<seq<Config>>, config: Config)
    requires |history| > 0 && AllDistinct(history) && LoadsFixed(yaml, history)
    requires config in history[|history| - 1] && config.name in After(yaml, history[..|history| - 1])
    ensures Loads(yaml, config)
  {
    var before := history[..|history| - 1];
    ResidencyExactly(yaml, before, config.name);
    var j :| 0 <= j < |before| && LoadedAt(yaml, before[j], config.name);
    var earlier: Config :| earlier in before[j] && earlier.name == config.name && Loads(yaml, earlier);
    assert earlier in history[j];
  }

  /** Over a whole run: maintenance and rebuild agree exactly when every row of the last snapshot
      that has been resident up to now would load now. */
  lemma RunEqualsRebuildExactly(yaml: Yaml, history: seq<seq<Config>>)
    requires |history| > 0 && AllDistinct(history)
    ensures After(yaml, history) == After(yaml, [history[|history| - 1]])
            <==> forall config | config in history[|history| - 1] ::
                   ResidentSince(yaml, history[..|history| - 1], config.name) ==> Loads(yaml, config)
  {
    hide Loads, Reconfigured, ResidentSince;
    var n := |history| - 1;
    AfterOnly(yaml, history[n]);
    RebuildExactly(yaml, After(yaml, history[..n]).Keys, history[n]);
    forall config | config in history[n]
      ensures config.name in After(yaml, history[..n]) <==> ResidentSince(yaml, history[..n], config.name)
    {
      ResidencyExactly(yaml, history[..n], config.name);
    }
  }

  /** Every entry is that of its row in the last processed snapshot. */
  lemma EntryRow(yaml: Yaml, history: seq<seq<Config>>, name: string) returns (config: Config)
    requires |history| > 0 && AllDistinct(history) && name in After(yaml, history)
    ensures config in history[|history| - 1] && config.name == name
    ensures After(yaml, history)[name] == EntryFor(yaml, config)
  {
    config := RowOf(history[|history| - 1], name);
  }

  /** A pass over the last snapshot again finds every loadable row resident. */
  lemma LoadableAreResident(yaml: Yaml, history: seq<seq<Config>>, j: nat)
    requires |history| > 0 && DistinctNames(history[|history| - 1]) && j < |history[|history| - 1]|
    requires Loads(yaml, history[|history| - 1][j])
    ensures history[|history| - 1][j].name in After(yaml, history)
  {
    RowOfIs(history[|history| - 1], j);
  }

  lemma ResidentsAreListed(yaml: Yaml, history: seq<seq<Config>>)
    requires |history| > 0
    ensures After(yaml, history).Keys <= Names(history[|history| - 1])
  {
  }

  /** The table keeps the listed subsystems that were resident or load. */
  lemma ReconfiguredNames(yaml: Yaml, resident: set<string>, configs: seq<Config>)
    requires DistinctNames(configs)
    ensures Reconfigured(yaml, resident, configs).Keys == Residents(yaml, resident, configs)
  {
    forall config | config in configs ensures RowOf(configs, config.name) == config {
      var i :| 0 <= i < |configs| && configs[i] == config;
      RowOfIs(configs, i);
    }
  }

  /** A pass over the last processed snapshot again finds every loadable row resident, and changes
      neither the residents nor the database. */
  lemma ProcessedIsStable(yaml: Yaml, history: seq<seq<Config>>, db: Db)
    requires |history| > 0 && history[|history| - 1] == Configs(db) && DistinctNames(Configs(db))
    ensures DbPassed(yaml, db, After(yaml, history).Keys) == db
    ensures Residents(yaml, After(yaml, history).Keys, Configs(db)) == After(yaml, history).Keys
  {
    hide Loads;
    var configs, resident := Configs(db), After(yaml, history).Keys;
    forall j | 0 <= j < |configs| && Loads(yaml, configs[j]) ensures configs[j].name in resident {
      LoadableAreResident(yaml, history, j);
    }
    IdlePass(yaml, db, resident, configs, |configs|);
    ResidentsAreListed(yaml, history);
  }

  /** A subsystem that loses its description directory while it is resident stays; a rebuild would
      not have it. */
  lemma MaintenanceOutlivesDescription(yaml: Yaml, name: string, dir: string)
    requires yaml(name).Loaded? && |yaml(name).frus| > 0 && dir != ""
    ensures var first, last := [Config(name, Some(dir), map[], [])], [Config(name, Some(""), map[], [])];
            name in After(yaml, [first, last]) && name !in After(yaml, [last])
  {
    var first, last := [Config(name, Some(dir), map[], [])], [Config(name, Some(""), map[], [])];
    AfterOnly(yaml, first);
    AfterOnly(yaml, last);
    AfterOneMore(yaml, [first], last);
    assert [first] + [last] == [first, last];
    RowOfIs(first, 0);
    RowOfIs(last, 0);
  }
}
