/** The rows of the database that the daemon reads and writes.

    Committing is atomic; rows of the Fan table that no subsystem references disappear.
 */
module Database {
  import opened Platform
  import FanSpeed
  import FanStatus
  import opened Naming

  type Uuid = nat

  /** The columns of a subsystem row that other processes write. */
  datatype Config = Config(
    name: string,
    hwDescDir: Option<string>,
    otherConfig: map<string, string>,
    tempSensors: seq<string>)

  datatype SubsystemRow = SubsystemRow(config: Config, fans: seq<Uuid>)

  datatype FanRow = FanRow(
    uuid: Uuid,
    name: string,
    status: string,
    direction: string,
    speed: string,
    rpm: Option<int>)

  datatype DaemonRow = DaemonRow(name: string, curHw: int)

  datatype Db = Db(subsystems: seq<SubsystemRow>, fans: seq<FanRow>, daemons: seq<DaemonRow>, nextUuid: Uuid)

  const OVERRIDE_KEY := "fan_speed_override"

  function Override(config: Config): Option<string> {
    if OVERRIDE_KEY in config.otherConfig then Some(config.otherConfig[OVERRIDE_KEY]) else None
  }

  /** Whether a row that is not resident becomes a usable subsystem. */
  predicate Loads(yaml: Yaml, config: Config) {
    && config.hwDescDir.Some? && config.hwDescDir.value != ""
    && yaml(config.name).Loaded? && |yaml(config.name).frus| > 0
  }

  function Configs(db: Db): (r: seq<Config>)
    ensures |r| == |db.subsystems|
    ensures forall i :: 0 <= i < |r| ==> r[i] == db.subsystems[i].config
  {
    seq(|db.subsystems|, i requires 0 <= i < |db.subsystems| => db.subsystems[i].config)
  }

  ghost predicate DistinctNames(configs: seq<Config>) {
    forall i, j :: 0 <= i < j < |configs| ==> configs[i].name != configs[j].name
  }

  // ----- Fan rows -----

  function RowIndex(rows: seq<FanRow>, name: string): (r: int)
    ensures -1 <= r < |rows|
    ensures r >= 0 ==> rows[r].name == name
    ensures r >= 0 ==> forall i :: 0 <= i < r ==> rows[i].name != name
    ensures r < 0 ==> forall i :: 0 <= i < |rows| ==> rows[i].name != name
  {
    if |rows| == 0 then -1
    else if rows[0].name == name then 0
    else
      var r := RowIndex(rows[1..], name);
      assert forall i :: 0 < i < |rows| ==> rows[i] == rows[1..][i - 1];
      if r < 0 then -1 else r + 1
  }

  function DefaultRow(uuid: Uuid, name: string, rpm: Option<int>): FanRow {
    FanRow(uuid, name, FanStatus.PrintStatus(FanStatus.UNINITIALIZED), "f2b", FanSpeed.PrintSpeed(FanSpeed.NORMAL), rpm)
  }

  datatype Provisioned = Provisioned(rows: seq<FanRow>, next: Uuid, uuids: seq<Uuid>)

  /** Reuse the row of this name, or insert one; either way with default contents. */
  function Provision(p: Provisioned, name: string): Provisioned {
    var i := RowIndex(p.rows, name);
    if i >= 0 then
      Provisioned(p.rows[i := DefaultRow(p.rows[i].uuid, name, p.rows[i].rpm)], p.next, p.uuids + [p.rows[i].uuid])
    else
      Provisioned(p.rows + [DefaultRow(p.next, name, None)], p.next + 1, p.uuids + [p.next])
  }

  function ProvisionAll(rows: seq<FanRow>, next: Uuid, names: seq<string>): Provisioned {
    if |names| == 0 then Provisioned(rows, next, [])
    else Provision(ProvisionAll(rows, next, names[..|names| - 1]), names[|names| - 1])
  }

  ghost predicate RowsOk(rows: seq<FanRow>, next: Uuid) {
    && (forall i :: 0 <= i < |rows| ==> rows[i].uuid < next)
    && (forall i, j :: 0 <= i < j < |rows| ==> rows[i].uuid != rows[j].uuid && rows[i].name != rows[j].name)
  }

  ghost predicate SameIdentities(rows: seq<FanRow>, more: seq<FanRow>) {
    && |rows| <= |more|
    && forall i :: 0 <= i < |rows| ==> more[i].uuid == rows[i].uuid && more[i].name == rows[i].name
  }

  ghost predicate HasRow(rows: seq<FanRow>, uuid: Uuid, name: string) {
    exists i :: 0 <= i < |rows| && rows[i].uuid == uuid && rows[i].name == name
  }

  lemma ProvisionOk(p: Provisioned, name: string)
    requires RowsOk(p.rows, p.next)
    ensures var q := Provision(p, name);
            && RowsOk(q.rows, q.next) && p.next <= q.next && SameIdentities(p.rows, q.rows)
            && (forall i :: |p.rows| <= i < |q.rows| ==> p.next <= q.rows[i].uuid)
            && |q.uuids| == |p.uuids| + 1 && q.uuids[..|p.uuids|] == p.uuids
            && HasRow(q.rows, q.uuids[|p.uuids|], name)
  {
    var q := Provision(p, name);
    var i := RowIndex(p.rows, name);
    var at := if i >= 0 then i else |p.rows|;
    assert q.rows[at].uuid == q.uuids[|p.uuids|] && q.rows[at].name == name;
    assert forall j :: 0 <= j < |p.rows| && j != at ==> q.rows[j] == p.rows[j];
  }

  lemma StillHasRow(rows: seq<FanRow>, more: seq<FanRow>, uuid: Uuid, name: string)
    requires SameIdentities(rows, more) && HasRow(rows, uuid, name)
    ensures HasRow(more, uuid, name)
  {
    var i :| 0 <= i < |rows| && rows[i].uuid == uuid && rows[i].name == name;
    assert more[i].uuid == uuid && more[i].name == name;
  }

  /** Provisioning keeps every row's identity and the uniqueness of names, and hands back,
      name by name, the identifier of the one row of that name. */
  lemma {:induction false} ProvisionAllOk(rows: seq<FanRow>, next: Uuid, names: seq<string>)
    requires RowsOk(rows, next)
    ensures var p := ProvisionAll(rows, next, names);
            && RowsOk(p.rows, p.next) && next <= p.next && SameIdentities(rows, p.rows)
            && (forall i :: |rows| <= i < |p.rows| ==> next <= p.rows[i].uuid)
            && |p.uuids| == |names|
            && forall k :: 0 <= k < |names| ==> HasRow(p.rows, p.uuids[k], names[k])
  {
    if |names| > 0 {
      var n := |names| - 1;
      ProvisionAllOk(rows, next, names[..n]);
      var before := ProvisionAll(rows, next, names[..n]);
      ProvisionOk(before, names[n]);
      ProvisionedNext(rows, before, Provision(before, names[n]), next, names);
    }
  }

  lemma ProvisionedNext(rows: seq<FanRow>, before: Provisioned, p: Provisioned, next: Uuid, names: seq<string>)
    requires |names| > 0 && |before.uuids| == |names| - 1 && |p.uuids| == |names|
    requires next <= before.next && SameIdentities(rows, before.rows) && SameIdentities(before.rows, p.rows)
    requires forall i :: |rows| <= i < |before.rows| ==> next <= before.rows[i].uuid
    requires forall i :: |before.rows| <= i < |p.rows| ==> before.next <= p.rows[i].uuid
    requires forall k :: 0 <= k < |names| - 1 ==> HasRow(before.rows, before.uuids[k], names[..|names| - 1][k])
    requires p.uuids[..|names| - 1] == before.uuids && HasRow(p.rows, p.uuids[|names| - 1], names[|names| - 1])
    ensures SameIdentities(rows, p.rows)
    ensures forall i :: |rows| <= i < |p.rows| ==> next <= p.rows[i].uuid
    ensures forall k :: 0 <= k < |names| ==> HasRow(p.rows, p.uuids[k], names[k])
  {
    forall k | 0 <= k < |names| - 1 ensures HasRow(p.rows, p.uuids[k], names[k]) {
      StillHasRow(before.rows, p.rows, before.uuids[k], names[k]);
      assert p.uuids[..|names| - 1][k] == p.uuids[k];
    }
  }

  // ----- garbage collection -----

  function Referenced(subsystems: seq<SubsystemRow>): set<Uuid> {
    set r, u | r in subsystems && u in r.fans :: u
  }

  lemma IsReferenced(subsystems: seq<SubsystemRow>, i: nat, u: Uuid)
    requires i < |subsystems| && u in subsystems[i].fans
    ensures u in Referenced(subsystems)
  {
    assert subsystems[i] in subsystems;
  }

  function Keep(rows: seq<FanRow>, uuids: set<Uuid>): (r: seq<FanRow>)
    ensures forall row :: row in r <==> row in rows && row.uuid in uuids
  {
    if |rows| == 0 then []
    else
      var n := |rows| - 1;
      assert rows == rows[..n] + [rows[n]];
      Keep(rows[..n], uuids) + if rows[n].uuid in uuids then [rows[n]] else []
  }

  lemma {:induction false} KeepOk(rows: seq<FanRow>, uuids: set<Uuid>, next: Uuid)
    requires RowsOk(rows, next)
    ensures RowsOk(Keep(rows, uuids), next)
  {
    if |rows| > 0 {
      var n := |rows| - 1;
      KeepOk(rows[..n], uuids, next);
      forall row | row in Keep(rows[..n], uuids) ensures row.uuid != rows[n].uuid && row.name != rows[n].name {
        var i :| 0 <= i < n && rows[..n][i] == row;
      }
    }
  }

  function Collect(db: Db): Db {
    db.(fans := Keep(db.fans, Referenced(db.subsystems)))
  }

  /** A commit removes nothing when every Fan row is referenced. */
  lemma CollectNothing(db: Db)
    requires forall f :: f in db.fans ==> f.uuid in Referenced(db.subsystems)
    ensures Collect(db) == db
  {
    KeepEverything(db.fans, Referenced(db.subsystems));
  }

  lemma {:induction false} KeepEverything(rows: seq<FanRow>, uuids: set<Uuid>)
    requires forall f :: f in rows ==> f.uuid in uuids
    ensures Keep(rows, uuids) == rows
  {
    if |rows| > 0 {
      var n := |rows| - 1;
      assert rows == rows[..n] + [rows[n]];
      KeepEverything(rows[..n], uuids);
      assert Keep(rows, uuids) == Keep(rows[..n], uuids) + [rows[n]];
    }
  }

  // ----- adding the fans of a subsystem -----

  function FullNames(subsystem: string, fans: seq<YamlFan>): (r: seq<string>)
    ensures |r| == |fans|
    ensures forall i :: 0 <= i < |fans| ==> r[i] == FullName(subsystem, fans[i].name)
  {
    seq(|fans|, i requires 0 <= i < |fans| => FullName(subsystem, fans[i].name))
  }

  lemma DefaultContents()
    ensures FanStatus.PrintStatus(FanStatus.UNINITIALIZED) == "uninitialized" && FanSpeed.PrintSpeed(FanSpeed.NORMAL) == "normal"
  {
    assert FanStatus.STATUS_STRINGS[0] == "uninitialized" && FanSpeed.SPEED_STRINGS[1] == "normal";
  }

  /** Every named row gets the default contents, every other row stays as it is. */
  lemma {:induction false} ProvisionAllContents(rows: seq<FanRow>, next: Uuid, names: seq<string>, i: nat)
    requires RowsOk(rows, next) && i < |ProvisionAll(rows, next, names).rows|
    ensures var row := ProvisionAll(rows, next, names).rows[i];
            if row.name in names then
              && row.status == "uninitialized" && row.direction == "f2b" && row.speed == "normal"
              && row.rpm == (if i < |rows| then rows[i].rpm else None)
            else i < |rows| && row == rows[i]
  {
    if |names| > 0 {
      var n := |names| - 1;
      var before := ProvisionAll(rows, next, names[..n]);
      assert names == names[..n] + [names[n]];
      ProvisionAllOk(rows, next, names[..n]);
      DefaultContents();
      if i < |before.rows| {
        ProvisionAllContents(rows, next, names[..n], i);
      }
    }
  }

  /** Rows after the first `n` of these fans were provided for. */
  function ProvisionFans(rows: seq<FanRow>, next: Uuid, subsystem: string, fans: seq<YamlFan>, n: nat): Provisioned
    requires n <= |fans|
  {
    ProvisionAll(rows, next, FullNames(subsystem, fans[..n]))
  }

  lemma NothingProvisioned(rows: seq<FanRow>, next: Uuid, subsystem: string, fans: seq<YamlFan>)
    ensures ProvisionFans(rows, next, subsystem, fans, 0) == Provisioned(rows, next, [])
  {
  }

  lemma EverythingProvisioned(rows: seq<FanRow>, next: Uuid, subsystem: string, fans: seq<YamlFan>)
    ensures ProvisionFans(rows, next, subsystem, fans, |fans|) == ProvisionAll(rows, next, FullNames(subsystem, fans))
  {
    assert fans[..|fans|] == fans;
  }

  lemma ProvisionNextFan(rows: seq<FanRow>, next: Uuid, subsystem: string, fans: seq<YamlFan>, n: nat)
    requires n < |fans|
    ensures ProvisionFans(rows, next, subsystem, fans, n + 1) ==
            Provision(ProvisionFans(rows, next, subsystem, fans, n), FullName(subsystem, fans[n].name))
  {
    var names := FullNames(subsystem, fans[..n + 1]);
    assert names[..n] == FullNames(subsystem, fans[..n]);
    assert names[n] == FullName(subsystem, fans[n].name);
  }

  /** The committed transaction that gives row `i` its fans. */
  function AddFanRows(db: Db, i: nat, names: seq<string>): Db
    requires i < |db.subsystems|
  {
    var p := ProvisionAll(db.fans, db.nextUuid, names);
    Collect(Db(db.subsystems[i := db.subsystems[i].(fans := p.uuids)], p.rows, db.daemons, p.next))
  }

  /** A resident subsystem references only rows of its described fans. */
  ghost predicate LinksOk(yaml: Yaml, db: Db, resident: set<string>, row: SubsystemRow) {
    && (forall u :: u in row.fans ==> u < db.nextUuid)
    && (row.config.name in resident ==>
          forall f :: f in db.fans && f.uuid in row.fans ==> f.name in DescribedNames(yaml, row.config.name))
  }

  ghost predicate Linked(yaml: Yaml, db: Db, resident: set<string>) {
    && DistinctNames(Configs(db))
    && RowsOk(db.fans, db.nextUuid)
    && (forall f :: f in db.fans ==> f.uuid in Referenced(db.subsystems))
    && (forall i :: 0 <= i < |db.subsystems| ==> LinksOk(yaml, db, resident, db.subsystems[i]))
  }

  lemma AddFanRowsConfigs(db: Db, i: nat, names: seq<string>)
    requires i < |db.subsystems|
    ensures Configs(AddFanRows(db, i, names)) == Configs(db)
    ensures AddFanRows(db, i, names).daemons == db.daemons
  {
  }

  /** Adding a subsystem keeps the links, with the subsystem now resident. */
  lemma AddFanRowsLinked(yaml: Yaml, db: Db, i: nat, resident: set<string>)
    requires i < |db.subsystems| && Linked(yaml, db, resident)
    requires db.subsystems[i].config.name !in resident
    ensures var name := db.subsystems[i].config.name;
            Linked(yaml, AddFanRows(db, i, FullNames(name, AllFans(Frus(yaml, name)))), resident + {name})
  {
    var name := db.subsystems[i].config.name;
    var fans := AllFans(Frus(yaml, name));
    var names := FullNames(name, fans);
    var p := ProvisionAll(db.fans, db.nextUuid, names);
    var after := AddFanRows(db, i, names);
    ProvisionAllOk(db.fans, db.nextUuid, names);
    KeepOk(p.rows, Referenced(after.subsystems), p.next);
    AddFanRowsConfigs(db, i, names);
    forall j | 0 <= j < |after.subsystems|
      ensures LinksOk(yaml, after, resident + {name}, after.subsystems[j])
    {
      if j == i {
        NewRowLinked(yaml, name, p, fans, after.subsystems[i], after, resident + {name});
      } else {
        assert LinksOk(yaml, db, resident, db.subsystems[j]);
        assert Configs(db)[j].name != Configs(db)[i].name;
        OldRowLinked(yaml, db, p, after.subsystems[j], after, resident, name);
      }
    }
  }

  lemma NewRowLinked(yaml: Yaml, name: string, p: Provisioned, fans: seq<YamlFan>, row: SubsystemRow, after: Db, resident: set<string>)
    requires fans == AllFans(Frus(yaml, name)) && row.config.name == name && name in resident
    requires RowsOk(p.rows, p.next) && row.fans == p.uuids && |p.uuids| == |fans|
    requires forall k :: 0 <= k < |fans| ==> HasRow(p.rows, p.uuids[k], FullName(name, fans[k].name))
    requires after.nextUuid == p.next && forall f :: f in after.fans ==> f in p.rows
    ensures LinksOk(yaml, after, resident, row)
  {
    forall k | 0 <= k < |p.uuids|
      ensures p.uuids[k] < p.next
      ensures forall f :: f in p.rows && f.uuid == p.uuids[k] ==> f.name in DescribedNames(yaml, name)
    {
      assert HasRow(p.rows, p.uuids[k], FullName(name, fans[k].name));
      var i :| 0 <= i < |p.rows| && p.rows[i].uuid == p.uuids[k] && p.rows[i].name == FullName(name, fans[k].name);
      assert fans[k] in AllFans(Frus(yaml, name));
    }
  }

  lemma OldRowLinked(yaml: Yaml, db: Db, p: Provisioned, row: SubsystemRow, after: Db, resident: set<string>, name: string)
    requires LinksOk(yaml, db, resident, row) && row.config.name != name
    requires SameIdentities(db.fans, p.rows) && db.nextUuid <= p.next
    requires forall i :: |db.fans| <= i < |p.rows| ==> db.nextUuid <= p.rows[i].uuid
    requires after.nextUuid == p.next && forall f :: f in after.fans ==> f in p.rows
    ensures LinksOk(yaml, after, resident + {name}, row)
  {
    forall f | f in after.fans && f.uuid in row.fans && row.config.name in resident
      ensures f.name in DescribedNames(yaml, row.config.name)
    {
      var i :| 0 <= i < |p.rows| && p.rows[i] == f;
      assert db.fans[i] in db.fans;
    }
  }

  /** A subsystem that leaves or was never listed does not matter to the links of the others. */
  lemma LinkedDespite(yaml: Yaml, db: Db, resident: set<string>, others: set<string>)
    requires Linked(yaml, db, resident)
    requires forall i :: 0 <= i < |db.subsystems| ==>
                           (db.subsystems[i].config.name in resident <==> db.subsystems[i].config.name in others)
    ensures Linked(yaml, db, others)
  {
    forall i | 0 <= i < |db.subsystems| ensures LinksOk(yaml, db, others, db.subsystems[i]) {
      assert LinksOk(yaml, db, resident, db.subsystems[i]);
    }
  }

  /** The same rows, up to the contents of Fan rows and to the Daemon table. */
  ghost predicate Alike(db: Db, other: Db) {
    && db.subsystems == other.subsystems && db.nextUuid == other.nextUuid
    && |db.fans| == |other.fans| && SameIdentities(db.fans, other.fans)
  }

  /** The contents of Fan rows, and the daemon rows, do not matter to the links. */
  lemma LinksIgnoreContents(yaml: Yaml, db: Db, now: Db, resident: set<string>)
    requires Linked(yaml, db, resident) && Alike(db, now)
    ensures Linked(yaml, now, resident)
  {
    assert Configs(now) == Configs(db);
    forall f | f in now.fans ensures exists g :: g in db.fans && g.uuid == f.uuid && g.name == f.name {
      AlikeRow(db, now, f);
    }
    forall i | 0 <= i < |now.subsystems| ensures LinksOk(yaml, now, resident, now.subsystems[i]) {
      assert LinksOk(yaml, db, resident, db.subsystems[i]);
    }
  }

  lemma AlikeRow(db: Db, now: Db, f: FanRow)
    requires Alike(db, now) && f in now.fans
    ensures exists g :: g in db.fans && g.uuid == f.uuid && g.name == f.name
  {
    var i :| 0 <= i < |now.fans| && now.fans[i] == f;
    assert db.fans[i] in db.fans;
  }

  // ----- one pass over the subsystem rows -----

  /** Residents after the first `i` rows were processed. */
  function ResidentAfter(yaml: Yaml, resident: set<string>, configs: seq<Config>, i: nat): set<string>
    requires i <= |configs|
  {
    resident + set j | 0 <= j < i && Loads(yaml, configs[j]) :: configs[j].name
  }

  /** Processing row `i`: a row that is not resident and loads gets its fans. */
  function DbStep(yaml: Yaml, db: Db, resident: set<string>, configs: seq<Config>, i: nat): (r: Db)
    requires i < |configs| == |db.subsystems|
    ensures |r.subsystems| == |db.subsystems|
  {
    if configs[i].name !in resident && Loads(yaml, configs[i])
    then AddFanRows(db, i, FullNames(configs[i].name, AllFans(Frus(yaml, configs[i].name))))
    else db
  }

  /** The database after the first `i` rows were processed. */
  function DbAfter(yaml: Yaml, db: Db, resident: set<string>, configs: seq<Config>, i: nat): (r: Db)
    requires i <= |configs| == |db.subsystems|
    ensures |r.subsystems| == |db.subsystems|
  {
    if i == 0 then db else DbStep(yaml, DbAfter(yaml, db, resident, configs, i - 1), resident, configs, i - 1)
  }

  /** The database after a whole pass. */
  function DbPassed(yaml: Yaml, db: Db, resident: set<string>): (r: Db)
    ensures |r.subsystems| == |db.subsystems|
  {
    DbAfter(yaml, db, resident, Configs(db), |db.subsystems|)
  }

  lemma DbStepConfigs(yaml: Yaml, db: Db, resident: set<string>, configs: seq<Config>, i: nat)
    requires i < |configs| == |db.subsystems|
    ensures Configs(DbStep(yaml, db, resident, configs, i)) == Configs(db)
    ensures DbStep(yaml, db, resident, configs, i).daemons == db.daemons
  {
    AddFanRowsConfigs(db, i, FullNames(configs[i].name, AllFans(Frus(yaml, configs[i].name))));
  }

  lemma {:induction false} DbAfterConfigs(yaml: Yaml, db: Db, resident: set<string>, configs: seq<Config>, i: nat)
    requires i <= |configs| == |db.subsystems|
    ensures Configs(DbAfter(yaml, db, resident, configs, i)) == Configs(db)
    ensures DbAfter(yaml, db, resident, configs, i).daemons == db.daemons
  {
    hide DbStep;
    if i > 0 {
      DbAfterConfigs(yaml, db, resident, configs, i - 1);
      DbStepConfigs(yaml, DbAfter(yaml, db, resident, configs, i - 1), resident, configs, i - 1);
    }
  }

  lemma ResidentNext(yaml: Yaml, resident: set<string>, configs: seq<Config>, i: nat)
    requires i < |configs|
    ensures ResidentAfter(yaml, resident, configs, i + 1) ==
            ResidentAfter(yaml, resident, configs, i) + if Loads(yaml, configs[i]) then {configs[i].name} else {}
  {
  }

  lemma StepLinked(yaml: Yaml, db: Db, resident: set<string>, configs: seq<Config>, i: nat)
    requires i < |configs| && Configs(db) == configs
    requires Linked(yaml, db, ResidentAfter(yaml, resident, configs, i))
    ensures Linked(yaml, DbStep(yaml, db, resident, configs, i), ResidentAfter(yaml, resident, configs, i + 1))
  {
    hide Linked, Loads, AddFanRows;
    var earlier := ResidentAfter(yaml, resident, configs, i);
    ResidentNext(yaml, resident, configs, i);
    if configs[i].name !in resident && Loads(yaml, configs[i]) {
      assert DistinctNames(configs) by {
        LinkedDistinct(yaml, db, earlier);
      }
      NotResidentYet(yaml, resident, configs, i);
      AddFanRowsLinked(yaml, db, i, earlier);
    } else {
      assert ResidentAfter(yaml, resident, configs, i + 1) == earlier;
    }
  }

  lemma LinkedDistinct(yaml: Yaml, db: Db, resident: set<string>)
    requires Linked(yaml, db, resident)
    ensures DistinctNames(Configs(db))
  {
  }

  lemma {:induction false} DbAfterLinked(yaml: Yaml, db: Db, resident: set<string>, configs: seq<Config>, i: nat)
    requires i <= |configs| && Configs(db) == configs && Linked(yaml, db, resident)
    ensures Linked(yaml, DbAfter(yaml, db, resident, configs, i), ResidentAfter(yaml, resident, configs, i))
  {
    hide Linked, DbStep, Loads;
    if i == 0 {
      assert ResidentAfter(yaml, resident, configs, 0) == resident;
    } else {
      DbAfterLinked(yaml, db, resident, configs, i - 1);
      DbAfterConfigs(yaml, db, resident, configs, i - 1);
      StepLinked(yaml, DbAfter(yaml, db, resident, configs, i - 1), resident, configs, i - 1);
    }
  }

  lemma NotResidentYet(yaml: Yaml, resident: set<string>, configs: seq<Config>, i: nat)
    requires i < |configs| && DistinctNames(configs) && configs[i].name !in resident
    ensures configs[i].name !in ResidentAfter(yaml, resident, configs, i)
  {
  }

  /** A pass in which every loadable row is already resident changes nothing. */
  lemma {:induction false} IdlePass(yaml: Yaml, db: Db, resident: set<string>, configs: seq<Config>, i: nat)
    requires i <= |configs| == |db.subsystems|
    requires forall j :: 0 <= j < |configs| && Loads(yaml, configs[j]) ==> configs[j].name in resident
    ensures DbAfter(yaml, db, resident, configs, i) == db
  {
    if i > 0 {
      IdlePass(yaml, db, resident, configs, i - 1);
    }
  }

  // ----- what a pass does to one row -----

  /** The row is the same, and the Fan rows it references are still there under their names. */
  ghost predicate RowKept(db: Db, after: Db, row: nat)
    requires row < |db.subsystems| == |after.subsystems|
  {
    && after.subsystems[row] == db.subsystems[row]
    && forall u, name :: u in db.subsystems[row].fans && HasRow(db.fans, u, name) ==> HasRow(after.fans, u, name)
  }

  /** The fans column names, in description order, one Fan row for each described fan. */
  ghost predicate Complete(yaml: Yaml, db: Db, row: SubsystemRow) {
    var fans := AllFans(Frus(yaml, row.config.name));
    && |row.fans| == |fans|
    && forall k :: 0 <= k < |fans| ==> HasRow(db.fans, row.fans[k], FullName(row.config.name, fans[k].name))
  }

  lemma KeptStaysComplete(yaml: Yaml, db: Db, after: Db, row: nat)
    requires row < |db.subsystems| == |after.subsystems|
    requires RowKept(db, after, row) && Complete(yaml, db, db.subsystems[row])
    ensures Complete(yaml, after, after.subsystems[row])
  {
    hide HasRow;
  }

  lemma StillHasRowCollected(rows: seq<FanRow>, uuids: set<Uuid>, u: Uuid, name: string)
    requires HasRow(rows, u, name) && u in uuids
    ensures HasRow(Keep(rows, uuids), u, name)
  {
    var i :| 0 <= i < |rows| && rows[i].uuid == u && rows[i].name == name;
    assert rows[i] in Keep(rows, uuids);
  }

  lemma AddingKeepsOthers(db: Db, i: nat, names: seq<string>, row: nat)
    requires i < |db.subsystems| && row < |db.subsystems| && row != i && RowsOk(db.fans, db.nextUuid)
    ensures RowKept(db, AddFanRows(db, i, names), row)
  {
    hide HasRow, ProvisionAll;
    var p := ProvisionAll(db.fans, db.nextUuid, names);
    var after := AddFanRows(db, i, names);
    ProvisionAllOk(db.fans, db.nextUuid, names);
    forall u, name | u in db.subsystems[row].fans && HasRow(db.fans, u, name) ensures HasRow(after.fans, u, name) {
      IsReferenced(after.subsystems, row, u);
      StillHasRow(db.fans, p.rows, u, name);
      StillHasRowCollected(p.rows, Referenced(after.subsystems), u, name);
    }
  }

  lemma AddingCompletes(yaml: Yaml, db: Db, i: nat, name: string)
    requires i < |db.subsystems| && db.subsystems[i].config.name == name && RowsOk(db.fans, db.nextUuid)
    ensures var after := AddFanRows(db, i, FullNames(name, AllFans(Frus(yaml, name))));
            Complete(yaml, after, after.subsystems[i])
  {
    hide HasRow, ProvisionAll;
    var fans := AllFans(Frus(yaml, name));
    var names := FullNames(name, fans);
    var p := ProvisionAll(db.fans, db.nextUuid, names);
    var after := AddFanRows(db, i, names);
    ProvisionAllOk(db.fans, db.nextUuid, names);
    forall k | 0 <= k < |fans| ensures HasRow(after.fans, p.uuids[k], FullName(name, fans[k].name)) {
      assert HasRow(p.rows, p.uuids[k], names[k]);
      IsReferenced(after.subsystems, i, p.uuids[k]);
      StillHasRowCollected(p.rows, Referenced(after.subsystems), p.uuids[k], names[k]);
    }
  }

  /** The pass makes the subsystem of this row resident. */
  predicate Joins(yaml: Yaml, resident: set<string>, config: Config) {
    config.name !in resident && Loads(yaml, config)
  }

  /** What a pass does to a row: one that becomes resident is complete from its turn on, any
      other keeps its fans. */
  lemma {:induction false} PassOnRow(yaml: Yaml, db: Db, resident: set<string>, configs: seq<Config>, i: nat, row: nat, earlier: set<string>)
    requires i <= |configs| && Configs(db) == configs && row < |configs| && Linked(yaml, db, resident)
    requires earlier == ResidentAfter(yaml, resident, configs, i)
    ensures var after := DbAfter(yaml, db, resident, configs, i);
            if row < i && Joins(yaml, resident, configs[row])
            then Complete(yaml, after, after.subsystems[row])
            else RowKept(db, after, row)
  {
    hide Complete, Joins, RowKept, Linked, DbStep, ResidentAfter;
    if i == 0 {
      NothingLost(db, row);
    } else {
      var before := DbAfter(yaml, db, resident, configs, i - 1);
      PassOnRow(yaml, db, resident, configs, i - 1, row, ResidentAfter(yaml, resident, configs, i - 1));
      DbAfterLinked(yaml, db, resident, configs, i - 1);
      DbAfterConfigs(yaml, db, resident, configs, i - 1);
      StepOnRow(yaml, before, resident, configs, i - 1, row);
      var after := DbAfter(yaml, db, resident, configs, i);
      if row < i - 1 && Joins(yaml, resident, configs[row]) {
        KeptStaysComplete(yaml, before, after, row);
      } else if !(row == i - 1 && Joins(yaml, resident, configs[row])) {
        KeptTwice(db, before, after, row);
      }
    }
  }

  lemma NothingLost(db: Db, row: nat)
    requires row < |db.subsystems|
    ensures RowKept(db, db, row)
  {
  }

  lemma KeptTwice(a: Db, b: Db, c: Db, row: nat)
    requires row < |a.subsystems| == |b.subsystems| == |c.subsystems|
    requires RowKept(a, b, row) && RowKept(b, c, row)
    ensures RowKept(a, c, row)
  {
    hide HasRow;
  }

  lemma StepOnRow(yaml: Yaml, db: Db, resident: set<string>, configs: seq<Config>, i: nat, row: nat)
    requires i < |configs| && row < |configs| && Configs(db) == configs
    requires Linked(yaml, db, ResidentAfter(yaml, resident, configs, i))
    ensures var after := DbStep(yaml, db, resident, configs, i);
            if row == i && Joins(yaml, resident, configs[row])
            then Complete(yaml, after, after.subsystems[row])
            else RowKept(db, after, row)
  {
    hide Complete, RowKept, AddFanRows;
    var name := configs[i].name;
    if !Joins(yaml, resident, configs[i]) {
      NothingLost(db, row);
    } else if row == i {
      AddingCompletes(yaml, db, i, name);
    } else {
      AddingKeepsOthers(db, i, FullNames(name, AllFans(Frus(yaml, name))), row);
    }
  }

  // ----- Fan rows that find no record -----

  /** The listed subsystems that are resident when the pass is over. */
  function Residents(yaml: Yaml, resident: set<string>, configs: seq<Config>): set<string> {
    set config | config in configs && (config.name in resident || Loads(yaml, config)) :: config.name
  }

  ghost predicate Described(yaml: Yaml, resident: set<string>, name: string) {
    exists s :: s in resident && name in DescribedNames(yaml, s)
  }

  /** Every Fan row is that of a described fan of some resident subsystem. */
  ghost predicate Resolved(yaml: Yaml, db: Db, resident: set<string>) {
    forall f :: f in db.fans ==> Described(yaml, resident, f.name)
  }

  /** The row references Fan rows, but its subsystem is not resident and cannot be loaded. */
  ghost predicate Stranded(yaml: Yaml, resident: set<string>, row: SubsystemRow) {
    row.fans != [] && row.config.name !in resident && !Loads(yaml, row.config)
  }

  /** What a stranded row references is described by subsystems that the pass leaves resident. */
  ghost predicate Resolvable(yaml: Yaml, db: Db, resident: set<string>) {
    forall row, f ::
      row in db.subsystems && Stranded(yaml, resident, row) && f in db.fans && f.uuid in row.fans ==>
        Described(yaml, Residents(yaml, resident, Configs(db)), f.name)
  }

  lemma ResidentsListed(yaml: Yaml, resident: set<string>, configs: seq<Config>, i: nat)
    requires DistinctNames(configs) && i < |configs|
    ensures configs[i].name in Residents(yaml, resident, configs)
            <==> configs[i].name in resident || Loads(yaml, configs[i])
    ensures configs[i].name in ResidentAfter(yaml, resident, configs, |configs|)
            <==> configs[i].name in resident || Loads(yaml, configs[i])
  {
    assert configs[i] in configs;
  }

  /** A whole pass keeps the links, for the residents that it leaves. */
  lemma PassLinked(yaml: Yaml, db: Db, resident: set<string>)
    requires Linked(yaml, db, resident)
    ensures Linked(yaml, DbPassed(yaml, db, resident), Residents(yaml, resident, Configs(db)))
    ensures Configs(DbPassed(yaml, db, resident)) == Configs(db)
  {
    hide Linked, DbAfter, Residents, ResidentAfter, Loads;
    var configs, n := Configs(db), |db.subsystems|;
    var after := DbPassed(yaml, db, resident);
    DbAfterLinked(yaml, db, resident, configs, n);
    DbAfterConfigs(yaml, db, resident, configs, n);
    LinkedDistinct(yaml, db, resident);
    forall i | 0 <= i < n
      ensures after.subsystems[i].config.name in ResidentAfter(yaml, resident, configs, n)
              <==> after.subsystems[i].config.name in Residents(yaml, resident, configs)
    {
      assert Configs(after)[i] == configs[i];
      ResidentsListed(yaml, resident, configs, i);
    }
    LinkedDespite(yaml, after, ResidentAfter(yaml, resident, configs, n), Residents(yaml, resident, configs));
  }

  lemma PassKeepsDaemons(yaml: Yaml, db: Db, resident: set<string>)
    ensures DbPassed(yaml, db, resident).daemons == db.daemons
  {
    DbAfterConfigs(yaml, db, resident, Configs(db), |db.subsystems|);
  }

  /** No Fan row with an identifier from before has another name than before. */
  ghost predicate Descends(db: Db, after: Db) {
    && db.nextUuid <= after.nextUuid
    && forall f :: f in after.fans && f.uuid < db.nextUuid ==> HasRow(db.fans, f.uuid, f.name)
  }

  lemma AddingDescends(db: Db, i: nat, names: seq<string>)
    requires i < |db.subsystems| && RowsOk(db.fans, db.nextUuid)
    ensures Descends(db, AddFanRows(db, i, names))
  {
    hide ProvisionAll;
    var p := ProvisionAll(db.fans, db.nextUuid, names);
    ProvisionAllOk(db.fans, db.nextUuid, names);
    forall f | f in AddFanRows(db, i, names).fans && f.uuid < db.nextUuid ensures HasRow(db.fans, f.uuid, f.name) {
      var k :| 0 <= k < |p.rows| && p.rows[k] == f;
      assert k < |db.fans|;
    }
  }

  lemma DescendsTwice(a: Db, b: Db, c: Db)
    requires Descends(a, b) && Descends(b, c)
    ensures Descends(a, c)
  {
    forall f | f in c.fans && f.uuid < a.nextUuid ensures HasRow(a.fans, f.uuid, f.name) {
      var k :| 0 <= k < |b.fans| && b.fans[k].uuid == f.uuid && b.fans[k].name == f.name;
      assert b.fans[k] in b.fans;
    }
  }

  lemma DescendsItself(db: Db)
    ensures Descends(db, db)
  {
    forall f | f in db.fans ensures HasRow(db.fans, f.uuid, f.name) {
      var k :| 0 <= k < |db.fans| && db.fans[k] == f;
    }
  }

  lemma {:induction false} PassDescends(yaml: Yaml, db: Db, resident: set<string>, configs: seq<Config>, i: nat)
    requires i <= |configs| && Configs(db) == configs && Linked(yaml, db, resident)
    ensures Descends(db, DbAfter(yaml, db, resident, configs, i))
  {
    hide Descends, Linked, AddFanRows, Loads;
    if i == 0 {
      DescendsItself(db);
    } else {
      var before := DbAfter(yaml, db, resident, configs, i - 1);
      PassDescends(yaml, db, resident, configs, i - 1);
      DbAfterLinked(yaml, db, resident, configs, i - 1);
      assert RowsOk(before.fans, before.nextUuid) by {
        LinkedRowsOk(yaml, before, ResidentAfter(yaml, resident, configs, i - 1));
      }
      if configs[i - 1].name !in resident && Loads(yaml, configs[i - 1]) {
        var names := FullNames(configs[i - 1].name, AllFans(Frus(yaml, configs[i - 1].name)));
        AddingDescends(before, i - 1, names);
        DescendsTwice(db, before, AddFanRows(before, i - 1, names));
      }
    }
  }

  lemma LinkedRowsOk(yaml: Yaml, db: Db, resident: set<string>)
    requires Linked(yaml, db, resident)
    ensures RowsOk(db.fans, db.nextUuid)
  {
  }

  /** What a row that stays without a resident subsystem references after a pass is what it
      referenced before. */
  lemma StrandedKeeps(yaml: Yaml, db: Db, resident: set<string>, i: nat, f: FanRow)
    requires Linked(yaml, db, resident) && i < |db.subsystems| && Stranded(yaml, resident, db.subsystems[i])
    ensures DbPassed(yaml, db, resident).subsystems[i] == db.subsystems[i]
    ensures f in db.fans && f.uuid in db.subsystems[i].fans ==>
              exists g :: g in DbPassed(yaml, db, resident).fans && g.name == f.name
    ensures f in DbPassed(yaml, db, resident).fans && f.uuid in db.subsystems[i].fans ==>
              exists g :: g in db.fans && g.uuid == f.uuid && g.name == f.name
  {
    hide DbAfter, Loads;
    var configs := Configs(db);
    var after := DbPassed(yaml, db, resident);
    PassOnRow(yaml, db, resident, configs, |configs|, i, ResidentAfter(yaml, resident, configs, |configs|));
    PassDescends(yaml, db, resident, configs, |configs|);
    if f in db.fans && f.uuid in db.subsystems[i].fans {
      assert HasRow(db.fans, f.uuid, f.name) by {
        var k :| 0 <= k < |db.fans| && db.fans[k] == f;
      }
      assert HasRow(after.fans, f.uuid, f.name);
    }
    if f in after.fans && f.uuid in db.subsystems[i].fans {
      assert LinksOk(yaml, db, resident, db.subsystems[i]);
      assert HasRow(db.fans, f.uuid, f.name);
    }
  }

  /** After a pass every Fan row belongs to a resident subsystem exactly when that is so for the
      Fan rows that stranded rows referenced before the pass. */
  lemma PassResolvesExactly(yaml: Yaml, db: Db, resident: set<string>)
    requires Linked(yaml, db, resident)
    ensures Resolved(yaml, DbPassed(yaml, db, resident), Residents(yaml, resident, Configs(db)))
            <==> Resolvable(yaml, db, resident)
  {
    hide DbPassed, Described, Residents, Loads;
    var after, now := DbPassed(yaml, db, resident), Residents(yaml, resident, Configs(db));
    PassLinked(yaml, db, resident);
    if Resolvable(yaml, db, resident) {
      forall f | f in after.fans ensures Described(yaml, now, f.name) {
        PassedRowDescribed(yaml, db, resident, f);
      }
    }
    if Resolved(yaml, after, now) {
      forall row, f | row in db.subsystems && Stranded(yaml, resident, row) && f in db.fans && f.uuid in row.fans
        ensures Described(yaml, now, f.name)
      {
        var i :| 0 <= i < |db.subsystems| && db.subsystems[i] == row;
        StrandedKeeps(yaml, db, resident, i, f);
      }
    }
  }

  lemma PassedRowDescribed(yaml: Yaml, db: Db, resident: set<string>, f: FanRow)
    requires Linked(yaml, db, resident) && Resolvable(yaml, db, resident) && f in DbPassed(yaml, db, resident).fans
    ensures Described(yaml, Residents(yaml, resident, Configs(db)), f.name)
  {
    hide DbPassed, Residents, Loads;
    var after, now := DbPassed(yaml, db, resident), Residents(yaml, resident, Configs(db));
    PassLinked(yaml, db, resident);
    var r :| r in after.subsystems && f.uuid in r.fans;
    var i :| 0 <= i < |after.subsystems| && after.subsystems[i] == r;
    assert LinksOk(yaml, after, now, after.subsystems[i]);
    assert Configs(after)[i] == Configs(db)[i];
    ResidentsListed(yaml, resident, Configs(db), i);
    if r.config.name !in now {
      PassOnRow(yaml, db, resident, Configs(db), |db.subsystems|, i, ResidentAfter(yaml, resident, Configs(db), |db.subsystems|));
      assert db.subsystems[i] == r by {
        RowIsKept(yaml, db, resident, i);
      }
      StrandedKeeps(yaml, db, resident, i, f);
      assert db.subsystems[i] in db.subsystems;
    }
  }

  /** A row that does not become resident in a pass keeps its fans column. */
  lemma RowIsKept(yaml: Yaml, db: Db, resident: set<string>, i: nat)
    requires Linked(yaml, db, resident) && i < |db.subsystems| && !Joins(yaml, resident, db.subsystems[i].config)
    ensures RowKept(db, DbPassed(yaml, db, resident), i)
  {
    hide DbAfter, Loads;
    PassOnRow(yaml, db, resident, Configs(db), |db.subsystems|, i, ResidentAfter(yaml, resident, Configs(db), |db.subsystems|));
  }

  /** A restarted daemon whose subsystem has lost its description directory: the Fan row stays, and
      no subsystem is resident. */
  lemma StrandedRowFindsNoRecord(yaml: Yaml)
    ensures var db := Db([SubsystemRow(Config("base", None, map[], []), [0])], [DefaultRow(0, "base-1", None)], [], 1);
            && Linked(yaml, db, {}) && DbPassed(yaml, db, {}) == db
            && Residents(yaml, {}, Configs(db)) == {} && !Resolved(yaml, db, {})
  {
    var db := Db([SubsystemRow(Config("base", None, map[], []), [0])], [DefaultRow(0, "base-1", None)], [], 1);
    IdlePass(yaml, db, {}, Configs(db), 1);
    assert db.subsystems[0] in db.subsystems && 0 in db.subsystems[0].fans;
    assert db.fans[0] in db.fans;
  }

  // ----- contents do not matter to rows -----

  lemma {:induction false} KeepAlike(rows: seq<FanRow>, others: seq<FanRow>, uuids: set<Uuid>)
    requires |rows| == |others| && SameIdentities(rows, others)
    ensures |Keep(rows, uuids)| == |Keep(others, uuids)| && SameIdentities(Keep(rows, uuids), Keep(others, uuids))
  {
    if |rows| > 0 {
      var n := |rows| - 1;
      KeepAlike(rows[..n], others[..n], uuids);
    }
  }

  lemma CollectAlike(db: Db, other: Db)
    requires Alike(db, other)
    ensures Alike(Collect(db), Collect(other))
  {
    KeepAlike(db.fans, other.fans, Referenced(db.subsystems));
  }

  lemma {:induction false} ProvisionAllAlike(rows: seq<FanRow>, others: seq<FanRow>, next: Uuid, names: seq<string>)
    requires |rows| == |others| && SameIdentities(rows, others)
    ensures var p, q := ProvisionAll(rows, next, names), ProvisionAll(others, next, names);
            p.uuids == q.uuids && p.next == q.next && |p.rows| == |q.rows| && SameIdentities(p.rows, q.rows)
  {
    if |names| > 0 {
      var n := |names| - 1;
      ProvisionAllAlike(rows, others, next, names[..n]);
      var p, q := ProvisionAll(rows, next, names[..n]), ProvisionAll(others, next, names[..n]);
      assert RowIndex(p.rows, names[n]) == RowIndex(q.rows, names[n]);
    }
  }

  lemma AddFanRowsAlike(db: Db, other: Db, i: nat, names: seq<string>)
    requires Alike(db, other) && i < |db.subsystems|
    ensures Alike(AddFanRows(db, i, names), AddFanRows(other, i, names))
  {
    hide Collect;
    ProvisionAllAlike(db.fans, other.fans, db.nextUuid, names);
    var p, q := ProvisionAll(db.fans, db.nextUuid, names), ProvisionAll(other.fans, other.nextUuid, names);
    CollectAlike(Db(db.subsystems[i := db.subsystems[i].(fans := p.uuids)], p.rows, db.daemons, p.next),
                 Db(other.subsystems[i := other.subsystems[i].(fans := q.uuids)], q.rows, other.daemons, q.next));
  }

  lemma {:induction false} DbAfterAlike(yaml: Yaml, db: Db, other: Db, resident: set<string>, configs: seq<Config>, i: nat)
    requires Alike(db, other) && i <= |configs| == |db.subsystems|
    ensures Alike(DbAfter(yaml, db, resident, configs, i), DbAfter(yaml, other, resident, configs, i))
  {
    hide Alike, AddFanRows, Loads;
    assert |other.subsystems| == |db.subsystems| by {
      AlikeRows(db, other);
    }
    if i > 0 {
      DbAfterAlike(yaml, db, other, resident, configs, i - 1);
      if configs[i - 1].name !in resident && Loads(yaml, configs[i - 1]) {
        AddFanRowsAlike(DbAfter(yaml, db, resident, configs, i - 1), DbAfter(yaml, other, resident, configs, i - 1), i - 1,
                        FullNames(configs[i - 1].name, AllFans(Frus(yaml, configs[i - 1].name))));
      }
    }
  }

  lemma AlikeRows(db: Db, other: Db)
    requires Alike(db, other)
    ensures db.subsystems == other.subsystems && Configs(db) == Configs(other)
    ensures Alike(other, db)
  {
  }

  lemma DbPassedAlike(yaml: Yaml, db: Db, other: Db, resident: set<string>)
    requires Alike(db, other)
    ensures Alike(DbPassed(yaml, db, resident), DbPassed(yaml, other, resident))
  {
    AlikeRows(db, other);
    DbAfterAlike(yaml, db, other, resident, Configs(db), |db.subsystems|);
  }

  lemma AlikeTwice(a: Db, b: Db, c: Db)
    requires Alike(a, b) && Alike(b, c)
    ensures Alike(a, c)
  {
  }

  lemma ResolvableAlike(yaml: Yaml, db: Db, other: Db, resident: set<string>)
    requires Alike(db, other) && Resolvable(yaml, db, resident)
    ensures Resolvable(yaml, other, resident)
  {
    hide Described, Residents, Stranded;
    AlikeRows(db, other);
    forall row, f | row in other.subsystems && Stranded(yaml, resident, row) && f in other.fans && f.uuid in row.fans
      ensures Described(yaml, Residents(yaml, resident, Configs(other)), f.name)
    {
      AlikeRow(db, other, f);
    }
  }

  lemma CompleteAlike(yaml: Yaml, db: Db, other: Db, row: SubsystemRow)
    requires Alike(db, other) && Complete(yaml, db, row)
    ensures Complete(yaml, other, row)
  {
    hide HasRow;
    var fans := AllFans(Frus(yaml, row.config.name));
    forall k | 0 <= k < |fans| ensures HasRow(other.fans, row.fans[k], FullName(row.config.name, fans[k].name)) {
      StillHasRow(db.fans, other.fans, row.fans[k], FullName(row.config.name, fans[k].name));
    }
  }

  // ----- staged column writes -----

  datatype Column = StatusColumn | SpeedColumn | DirectionColumn | RpmColumn

  datatype Staged = FanWrite(uuid: Uuid, column: Column) | CurHwWrite

  function StageIf(condition: bool, uuid: Uuid, column: Column): seq<Staged> {
    if condition then [FanWrite(uuid, column)] else []
  }

  /** The writes that turn one row into the other, in the order of the code. */
  function RowDiff(was: FanRow, now: FanRow): seq<Staged> {
    StageIf(was.status != now.status, was.uuid, StatusColumn) + StageIf(was.speed != now.speed, was.uuid, SpeedColumn) +
    StageIf(was.direction != now.direction, was.uuid, DirectionColumn) + StageIf(was.rpm != now.rpm, was.uuid, RpmColumn)
  }

  function Diff(was: seq<FanRow>, now: seq<FanRow>, n: nat): seq<Staged>
    requires n <= |was| && n <= |now|
  {
    if n == 0 then [] else Diff(was, now, n - 1) + RowDiff(was[n - 1], now[n - 1])
  }

  predicate ColumnDiffers(was: FanRow, now: FanRow, column: Column) {
    match column
    case StatusColumn => was.status != now.status
    case SpeedColumn => was.speed != now.speed
    case DirectionColumn => was.direction != now.direction
    case RpmColumn => was.rpm != now.rpm
  }

  lemma RowDiffExactly(was: FanRow, now: FanRow, uuid: Uuid, column: Column)
    ensures FanWrite(uuid, column) in RowDiff(was, now) <==> uuid == was.uuid && ColumnDiffers(was, now, column)
    ensures CurHwWrite !in RowDiff(was, now)
  {
  }

  /** A column is staged exactly when it differs. */
  lemma {:induction false} DiffExactly(was: seq<FanRow>, now: seq<FanRow>, n: nat, next: Uuid, i: nat, column: Column)
    requires RowsOk(was, next) && n <= |was| && n <= |now| && i < |was|
    ensures FanWrite(was[i].uuid, column) in Diff(was, now, n) <==> i < n && ColumnDiffers(was[i], now[i], column)
    ensures CurHwWrite !in Diff(was, now, n)
  {
    hide RowDiff, ColumnDiffers;
    if n > 0 {
      DiffExactly(was, now, n - 1, next, i, column);
      RowDiffExactly(was[n - 1], now[n - 1], was[i].uuid, column);
      assert i < n - 1 || i > n - 1 ==> was[i].uuid != was[n - 1].uuid;
    }
  }

  /** Nothing is staged exactly when nothing differs. */
  lemma {:induction false} DiffEmpty(was: seq<FanRow>, now: seq<FanRow>, n: nat)
    requires n <= |was| && n <= |now|
    requires forall i :: 0 <= i < n ==> was[i].uuid == now[i].uuid && was[i].name == now[i].name
    ensures Diff(was, now, n) == [] <==> was[..n] == now[..n]
  {
    if n > 0 {
      DiffEmpty(was, now, n - 1);
      assert was[..n] == was[..n - 1] + [was[n - 1]] && now[..n] == now[..n - 1] + [now[n - 1]];
      assert was[..n] == now[..n] <==> was[..n - 1] == now[..n - 1] && was[n - 1] == now[n - 1];
    }
  }

  lemma DiffSame(was: seq<FanRow>, now: seq<FanRow>, later: seq<FanRow>, n: nat)
    requires n <= |was| && n <= |now| && n <= |later|
    requires forall i :: 0 <= i < n ==> now[i] == later[i]
    ensures Diff(was, now, n) == Diff(was, later, n)
  {
  }

  /** The first daemon row of this name reports its hardware as initialised. */
  function ReportedIn(daemons: seq<DaemonRow>, name: string): seq<DaemonRow> {
    if |daemons| == 0 then []
    else if daemons[0].name == name then [daemons[0].(curHw := 1)] + daemons[1..]
    else [daemons[0]] + ReportedIn(daemons[1..], name)
  }

  lemma {:induction false} ReportedAt(daemons: seq<DaemonRow>, name: string, i: nat)
    requires i <= |daemons| && forall j :: 0 <= j < i ==> daemons[j].name != name
    ensures i == |daemons| ==> ReportedIn(daemons, name) == daemons
    ensures i < |daemons| && daemons[i].name == name ==> ReportedIn(daemons, name) == daemons[i := daemons[i].(curHw := 1)]
  {
    if i > 0 {
      assert forall j :: 0 <= j < i - 1 ==> daemons[1..][j] == daemons[j + 1];
      ReportedAt(daemons[1..], name, i - 1);
    }
  }

  lemma ReportedNone(daemons: seq<DaemonRow>, name: string)
    requires forall d :: d in daemons ==> d.name != name
    ensures ReportedIn(daemons, name) == daemons
  {
    ReportedAt(daemons, name, |daemons|);
  }

  // ----- changes by other processes -----

  /** A new set of subsystem rows and daemon rows; `kept` names the subsystem rows that are the same
      rows as before, which carry over the fans column that only the daemon writes. */
  datatype Update = Update(configs: seq<Config>, kept: set<string>, daemons: seq<DaemonRow>)

  function FansOf(subsystems: seq<SubsystemRow>, name: string): seq<Uuid> {
    if |subsystems| == 0 then []
    else if subsystems[0].config.name == name then subsystems[0].fans
    else FansOf(subsystems[1..], name)
  }

  lemma {:induction false} FansOfRow(subsystems: seq<SubsystemRow>, name: string)
    ensures FansOf(subsystems, name) == [] ||
            exists i :: 0 <= i < |subsystems| && subsystems[i].config.name == name && subsystems[i].fans == FansOf(subsystems, name)
  {
    if |subsystems| > 0 && subsystems[0].config.name != name {
      FansOfRow(subsystems[1..], name);
      if FansOf(subsystems[1..], name) != [] {
        var i :| 0 <= i < |subsystems[1..]| && subsystems[1..][i].config.name == name
                 && subsystems[1..][i].fans == FansOf(subsystems[1..], name);
        assert subsystems[i + 1].config.name == name;
      }
    }
  }

  function UpdatedRow(db: Db, update: Update, config: Config): SubsystemRow {
    SubsystemRow(config, if config.name in update.kept then FansOf(db.subsystems, config.name) else [])
  }

  function ApplyUpdate(db: Db, update: Update): (r: Db)
    ensures Configs(r) == update.configs && r.daemons == update.daemons
  {
    Collect(db.(subsystems := seq(|update.configs|, i requires 0 <= i < |update.configs| =>
                                UpdatedRow(db, update, update.configs[i])), daemons := update.daemons))
  }

  /** The database at the beginning of a turn. */
  function Received(db: Db, update: Option<Update>): Db {
    if update.Some? then ApplyUpdate(db, update.value) else db
  }

  lemma AppliedRow(db: Db, update: Update, i: nat)
    requires i < |update.configs|
    ensures |ApplyUpdate(db, update).subsystems| == |update.configs|
    ensures ApplyUpdate(db, update).subsystems[i] == UpdatedRow(db, update, update.configs[i])
  {
  }

  /** Other processes keep the links. */
  lemma UpdateLinked(yaml: Yaml, db: Db, resident: set<string>, update: Update)
    requires Linked(yaml, db, resident) && DistinctNames(update.configs)
    ensures Linked(yaml, ApplyUpdate(db, update), resident)
  {
    var after := ApplyUpdate(db, update);
    KeepOk(db.fans, Referenced(after.subsystems), db.nextUuid);
    forall i | 0 <= i < |after.subsystems| ensures LinksOk(yaml, after, resident, after.subsystems[i]) {
      var config := update.configs[i];
      AppliedRow(db, update, i);
      FansOfRow(db.subsystems, config.name);
      if after.subsystems[i].fans != [] {
        var j :| 0 <= j < |db.subsystems| && db.subsystems[j].config.name == config.name
                 && db.subsystems[j].fans == after.subsystems[i].fans;
        assert LinksOk(yaml, db, resident, db.subsystems[j]);
      }
    }
  }

  lemma ReceivedLinked(yaml: Yaml, db: Db, resident: set<string>, update: Option<Update>)
    requires Linked(yaml, db, resident) && (update.Some? ==> DistinctNames(update.value.configs))
    ensures Linked(yaml, Received(db, update), resident)
  {
    if update.Some? {
      UpdateLinked(yaml, db, resident, update.value);
    }
  }

  lemma ReceivedAlike(db: Db, other: Db, update: Option<Update>)
    requires Alike(db, other)
    ensures Alike(Received(db, update), Received(other, update))
  {
    if update.Some? {
      hide Collect;
      var rows := seq(|update.value.configs|, i requires 0 <= i < |update.value.configs| =>
                        UpdatedRow(db, update.value, update.value.configs[i]));
      assert rows == seq(|update.value.configs|, i requires 0 <= i < |update.value.configs| =>
                           UpdatedRow(other, update.value, update.value.configs[i]));
      CollectAlike(db.(subsystems := rows, daemons := update.value.daemons),
                   other.(subsystems := rows, daemons := update.value.daemons));
    }
  }

  /** Only resident subsystems reference fans. */
  ghost predicate Settled(db: Db, resident: set<string>) {
    forall i :: 0 <= i < |db.subsystems| && db.subsystems[i].fans != [] ==> db.subsystems[i].config.name in resident
  }

  lemma UpdateSettled(db: Db, resident: set<string>, update: Option<Update>)
    requires Settled(db, resident)
    ensures Settled(Received(db, update), resident)
  {
    if update.Some? {
      var after := ApplyUpdate(db, update.value);
      forall i | 0 <= i < |after.subsystems| && after.subsystems[i].fans != [] ensures after.subsystems[i].config.name in resident {
        AppliedRow(db, update.value, i);
        FansOfRow(db.subsystems, update.value.configs[i].name);
      }
    }
  }

  /** When no row is stranded, a pass leaves only resident subsystems that reference fans. */
  lemma PassSettles(yaml: Yaml, db: Db, resident: set<string>)
    requires Linked(yaml, db, resident) && forall row :: row in db.subsystems ==> !Stranded(yaml, resident, row)
    ensures Settled(DbPassed(yaml, db, resident), Residents(yaml, resident, Configs(db)))
    ensures Resolvable(yaml, db, resident)
  {
    hide DbPassed, Residents, Loads;
    var after, now := DbPassed(yaml, db, resident), Residents(yaml, resident, Configs(db));
    PassLinked(yaml, db, resident);
    assert forall i :: 0 <= i < |db.subsystems| ==> !Stranded(yaml, resident, db.subsystems[i]);
    forall i | 0 <= i < |after.subsystems| && after.subsystems[i].fans != [] ensures after.subsystems[i].config.name in now {
      assert Configs(after)[i] == Configs(db)[i];
      ResidentsListed(yaml, resident, Configs(db), i);
      if after.subsystems[i].config.name !in now {
        RowIsKept(yaml, db, resident, i);
      }
    }
  }

  /** Other processes leave a complete row complete if it stays the same row, and a new row has no fans. */
  lemma UpdatedRowFans(yaml: Yaml, db: Db, update: Update, i: nat)
    requires DistinctNames(Configs(db)) && i < |update.configs|
    ensures var row := ApplyUpdate(db, update).subsystems[i];
            && row.config == update.configs[i]
            && (row.config.name !in update.kept ==> row.fans == [])
            && (forall j :: 0 <= j < |db.subsystems| && db.subsystems[j].config.name == row.config.name && row.config.name in update.kept ==>
                  && row.fans == db.subsystems[j].fans
                  && (Complete(yaml, db, db.subsystems[j]) ==> Complete(yaml, ApplyUpdate(db, update), row)))
            && ((forall j :: 0 <= j < |db.subsystems| ==> db.subsystems[j].config.name != row.config.name) ==> row.fans == [])
  {
    hide HasRow;
    var after := ApplyUpdate(db, update);
    AppliedRow(db, update, i);
    var row := after.subsystems[i];
    FansOfRow(db.subsystems, row.config.name);
    forall j | 0 <= j < |db.subsystems| && db.subsystems[j].config.name == row.config.name && row.config.name in update.kept
      ensures row.fans == db.subsystems[j].fans
      ensures Complete(yaml, db, db.subsystems[j]) ==> Complete(yaml, after, row)
    {
      FansOfOnly(db.subsystems, j);
      var fans := AllFans(Frus(yaml, row.config.name));
      forall k | Complete(yaml, db, db.subsystems[j]) && 0 <= k < |fans|
        ensures HasRow(after.fans, row.fans[k], FullName(row.config.name, fans[k].name))
      {
        IsReferenced(after.subsystems, i, row.fans[k]);
        StillHasRowCollected(db.fans, Referenced(after.subsystems), row.fans[k], FullName(row.config.name, fans[k].name));
      }
    }
  }

  lemma {:induction false} FansOfOnly(subsystems: seq<SubsystemRow>, j: nat)
    requires j < |subsystems|
    requires forall i :: 0 <= i < j ==> subsystems[i].config.name != subsystems[j].config.name
    ensures FansOf(subsystems, subsystems[j].config.name) == subsystems[j].fans
  {
    if j > 0 {
      FansOfOnly(subsystems[1..], j - 1);
    }
  }
}
