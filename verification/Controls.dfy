/** Which registers control the speed and the LEDs of a subsystem, and what is written to them. */
module Controls {
  import opened Platform
  import FanSpeed
  import FanStatus
  import Naming
  import opened Bus

  function Present(op: Option<BitOp>): seq<BitOp> {
    if op.Some? then [op.value] else []
  }

  function FanControls(fans: seq<YamlFan>): seq<BitOp> {
    if |fans| == 0 then []
    else FanControls(fans[..|fans| - 1]) + Present(fans[|fans| - 1].speedControl)
  }

  function ControlsInFru(controlType: ControlType, fru: YamlFanFru): seq<BitOp> {
    match controlType
    case PER_FRU => Present(fru.speedControl)
    case PER_FAN => FanControls(fru.fans)
    case _ => []
  }

  function ControlsInFrus(controlType: ControlType, frus: seq<YamlFanFru>): seq<BitOp> {
    if |frus| == 0 then []
    else ControlsInFrus(controlType, frus[..|frus| - 1]) + ControlsInFru(controlType, frus[|frus| - 1])
  }

  /** The speed controls of a description at the level its control type names, in description order. */
  function SpeedControls(info: YamlFanInfo, frus: seq<YamlFanFru>): seq<BitOp> {
    if info.controlType == SINGLE then Present(info.speedControl) else ControlsInFrus(info.controlType, frus)
  }

  lemma ControlsInFrusNext(controlType: ControlType, frus: seq<YamlFanFru>, i: nat)
    requires i < |frus|
    ensures ControlsInFrus(controlType, frus[..i + 1]) ==
            ControlsInFrus(controlType, frus[..i]) + ControlsInFru(controlType, frus[i])
  {
    assert frus[..i + 1][..i] == frus[..i];
  }

  lemma FanControlsNext(fans: seq<YamlFan>, i: nat)
    requires i < |fans|
    ensures FanControls(fans[..i + 1]) == FanControls(fans[..i]) + Present(fans[i].speedControl)
  {
    assert fans[..i + 1][..i] == fans[..i];
  }

  lemma {:induction false} FanControlsIn(fans: seq<YamlFan>, op: BitOp)
    ensures op in FanControls(fans) <==> exists fan :: fan in fans && fan.speedControl == Some(op)
  {
    if |fans| > 0 {
      var n := |fans| - 1;
      FanControlsIn(fans[..n], op);
      assert fans == fans[..n] + [fans[n]];
    }
  }

  lemma {:induction false} FruControlsIn(frus: seq<YamlFanFru>, op: BitOp)
    ensures op in ControlsInFrus(PER_FRU, frus) <==> exists fru :: fru in frus && fru.speedControl == Some(op)
  {
    if |frus| > 0 {
      var n := |frus| - 1;
      FruControlsIn(frus[..n], op);
      assert frus == frus[..n] + [frus[n]];
    }
  }

  lemma {:induction false} AllFanControlsIn(frus: seq<YamlFanFru>, op: BitOp)
    ensures op in ControlsInFrus(PER_FAN, frus) <==> exists fan :: fan in AllFans(frus) && fan.speedControl == Some(op)
  {
    if |frus| > 0 {
      var n := |frus| - 1;
      AllFanControlsIn(frus[..n], op);
      FanControlsIn(frus[n].fans, op);
      assert AllFans(frus) == AllFans(frus[..n]) + frus[n].fans;
    }
  }

  lemma {:induction false} InvalidTypeHasNoControls(code: int, frus: seq<YamlFanFru>)
    ensures ControlsInFrus(INVALID(code), frus) == []
  {
    if |frus| > 0 {
      InvalidTypeHasNoControls(code, frus[..|frus| - 1]);
    }
  }

  /** A register is a speed control exactly when it is named at the description's own level. */
  lemma SpeedControlsExact(info: YamlFanInfo, frus: seq<YamlFanFru>, op: BitOp)
    ensures op in SpeedControls(info, frus) <==>
            match info.controlType
            case SINGLE => info.speedControl == Some(op)
            case PER_FRU => exists fru :: fru in frus && fru.speedControl == Some(op)
            case PER_FAN => exists fan :: fan in AllFans(frus) && fan.speedControl == Some(op)
            case INVALID(_) => false
  {
    match info.controlType
    case SINGLE =>
    case PER_FRU => FruControlsIn(frus, op);
    case PER_FAN => AllFanControlsIn(frus, op);
    case INVALID(code) => InvalidTypeHasNoControls(code, frus);
  }

  /** Description order: the controls of two FRU lists follow each other as the lists do. */
  lemma {:induction false} SpeedControlsInOrder(controlType: ControlType, a: seq<YamlFanFru>, b: seq<YamlFanFru>)
    ensures ControlsInFrus(controlType, a + b) == ControlsInFrus(controlType, a) + ControlsInFrus(controlType, b)
  {
    if |b| == 0 {
      assert a + b == a;
    } else {
      assert (a + b)[..|a + b| - 1] == a + b[..|b| - 1];
      SpeedControlsInOrder(controlType, a, b[..|b| - 1]);
      Associative(ControlsInFrus(controlType, a), ControlsInFrus(controlType, b[..|b| - 1]),
                  ControlsInFru(controlType, b[|b| - 1]));
    }
  }

  lemma {:induction false} FanControlsConcat(a: seq<YamlFan>, b: seq<YamlFan>)
    ensures FanControls(a + b) == FanControls(a) + FanControls(b)
  {
    if |b| == 0 {
      assert a + b == a;
    } else {
      assert (a + b)[..|a + b| - 1] == a + b[..|b| - 1];
      FanControlsConcat(a, b[..|b| - 1]);
      Associative(FanControls(a), FanControls(b[..|b| - 1]), Present(b[|b| - 1].speedControl));
    }
  }

  /** Per fan, the order is that of all fans of the description, however they are grouped in FRUs. */
  lemma {:induction false} PerFanOrder(frus: seq<YamlFanFru>)
    ensures ControlsInFrus(PER_FAN, frus) == FanControls(AllFans(frus))
  {
    if |frus| > 0 {
      var n := |frus| - 1;
      PerFanOrder(frus[..n]);
      FanControlsConcat(AllFans(frus[..n]), frus[n].fans);
    }
  }

  /** Two lists of fans are served in their order. */
  lemma FanControlsInOrder(frus: seq<YamlFanFru>, a: seq<YamlFan>, b: seq<YamlFan>)
    requires AllFans(frus) == a + b
    ensures ControlsInFrus(PER_FAN, frus) == FanControls(a) + FanControls(b)
  {
    PerFanOrder(frus);
    FanControlsConcat(a, b);
  }

  function SpeedSetting(settings: SpeedSettings, speed: int): Byte {
    if speed == FanSpeed.SLOW then settings.slow
    else if speed == FanSpeed.MEDIUM then settings.medium
    else if speed == FanSpeed.FAST then settings.fast
    else if speed == FanSpeed.MAX then settings.max
    else settings.normal
  }

  function Broadcast(subsystem: string, ops: seq<BitOp>, value: Byte): (r: seq<RegWrite>)
    ensures |r| == |ops|
    ensures forall i :: 0 <= i < |ops| ==> r[i] == RegWrite(subsystem, ops[i], value)
  {
    seq(|ops|, i requires 0 <= i < |ops| => RegWrite(subsystem, ops[i], value))
  }

  lemma BroadcastConcat(subsystem: string, a: seq<BitOp>, b: seq<BitOp>, value: Byte)
    ensures Broadcast(subsystem, a + b, value) == Broadcast(subsystem, a, value) + Broadcast(subsystem, b, value)
  {
  }

  /** All writes of one speed change. */
  function SpeedWrites(yaml: Yaml, subsystem: string, speed: int): seq<RegWrite> {
    match yaml(subsystem)
    case Loaded(info, frus) =>
      Broadcast(subsystem, SpeedControls(info, frus), SpeedSetting(info.settings, speed))
    case _ => []
  }

  // ----- LEDs -----

  const NAME_LIMIT := 127

  /** snprintf into a buffer of 128 characters. */
  function Truncated(s: string): string {
    if |s| <= NAME_LIMIT then s else s[..NAME_LIMIT]
  }

  /** What the LED pass sees of one fan record. */
  datatype Sight = Sight(name: string, status: nat)

  /** The search for a name: the first match, else the last record visited, else -1. */
  function LookupIndex(records: seq<Sight>, name: string): (r: int)
    ensures -1 <= r < |records|
    ensures |records| > 0 ==> r >= 0
    ensures (exists s :: s in records && s.name == name) ==> records[r].name == name
  {
    if |records| == 0 then -1
    else if records[0].name == name || |records| == 1 then 0
    else 1 + LookupIndex(records[1..], name)
  }

  /** What the lookup compares and finds: the first 127 characters of the name, and the first record that
      matches them, else the last record. */
  lemma {:induction false} LookupExactly(records: seq<Sight>, name: string)
    requires |records| > 0
    ensures Truncated(name) <= name && |Truncated(name)| == if |name| < 127 then |name| else 127
    ensures var r := LookupIndex(records, Truncated(name));
            && 0 <= r < |records|
            && (forall i :: 0 <= i < r ==> records[i].name != Truncated(name))
            && (records[r].name != Truncated(name) ==> r == |records| - 1)
  {
    if records[0].name != Truncated(name) && |records| > 1 {
      LookupExactly(records[1..], name);
      assert forall i :: 0 < i < |records| ==> records[i] == records[1..][i - 1];
    }
  }

  ghost predicate NamesUnique(records: seq<Sight>) {
    forall i, j :: 0 <= i < j < |records| ==> records[i].name != records[j].name
  }

  lemma SameName(records: seq<Sight>, a: Sight, b: Sight)
    requires NamesUnique(records) && a in records && b in records && a.name == b.name
    ensures a == b
  {
    var i :| 0 <= i < |records| && records[i] == a;
    var j :| 0 <= j < |records| && records[j] == b;
    if i < j {
      assert false;
    } else if j < i {
      assert false;
    }
  }

  lemma SameIndex(records: seq<Sight>, i: nat, j: nat)
    requires NamesUnique(records) && i < |records| && j < |records| && records[i].name == records[j].name
    ensures i == j
  {
  }

  lemma LookupFinds(order: seq<Sight>, own: Sight)
    requires NamesUnique(order) && own in order
    requires |own.name| <= NAME_LIMIT || |order| == 1
    ensures order[LookupIndex(order, Truncated(own.name))] == own
  {
    if |own.name| <= NAME_LIMIT {
      SameName(order, order[LookupIndex(order, own.name)], own);
    }
  }

  /** A long name whose record is visited first, with others after it, is missed. */
  lemma LookupMisses(records: seq<Sight>, own: Sight) returns (order: seq<Sight>)
    requires NamesUnique(records) && own in records
    requires |own.name| > NAME_LIMIT && |records| > 1
    ensures multiset(order) == multiset(records) && NamesUnique(order)
    ensures order[LookupIndex(order, Truncated(own.name))] != own
  {
    var p :| 0 <= p < |records| && records[p] == own;
    order := [own] + (records[..p] + records[p + 1..]);
    MovedToFrontSame(records, p, order);
    MovedToFrontUnique(records, p, order);
    FirstMissed(order, Truncated(own.name));
  }

  lemma FirstMissed(order: seq<Sight>, name: string)
    requires NamesUnique(order) && |order| > 1 && order[0].name != name
    ensures order[LookupIndex(order, name)] != order[0]
  {
    assert LookupIndex(order, name) >= 1;
  }

  lemma MovedToFrontSame(records: seq<Sight>, p: nat, order: seq<Sight>)
    requires p < |records|
    requires order == [records[p]] + (records[..p] + records[p + 1..])
    ensures multiset(order) == multiset(records)
  {
    assert records == records[..p] + ([records[p]] + records[p + 1..]);
  }

  lemma MovedToFrontUnique(records: seq<Sight>, p: nat, order: seq<Sight>)
    requires NamesUnique(records) && p < |records|
    requires order == [records[p]] + (records[..p] + records[p + 1..])
    ensures NamesUnique(order)
  {
    forall i, j | 0 <= i < j < |order| ensures order[i].name != order[j].name {
      var i' := if i == 0 then p else if i <= p then i - 1 else i;
      var j' := if j <= p then j - 1 else j;
      assert order[i] == records[i'] && order[j] == records[j'] && i' != j';
      assert i' < j' || j' < i';
    }
  }

  ghost predicate Reordered(records: seq<Sight>, order: seq<Sight>) {
    multiset(order) == multiset(records) && NamesUnique(order)
  }

  lemma ReorderedHas(records: seq<Sight>, order: seq<Sight>, own: Sight)
    requires own in records && Reordered(records, order)
    ensures own in order && |order| == |records|
  {
    assert own in multiset(order);
    assert |order| == |multiset(order)|;
  }

  /** The lookup by short name finds the record of that name whatever the iteration order,
      exactly when the full name fits the buffer or there is no other record. */
  lemma LookupFindsExactly(records: seq<Sight>, own: Sight)
    requires NamesUnique(records) && own in records
    ensures |own.name| <= 127 || |records| == 1
            <==>
            forall order :: Reordered(records, order) ==>
              own in order && order[LookupIndex(order, Truncated(own.name))] == own
  {
    if |own.name| <= NAME_LIMIT || |records| == 1 {
      forall order | Reordered(records, order)
        ensures own in order && order[LookupIndex(order, Truncated(own.name))] == own
      {
        ReorderedHas(records, order, own);
        LookupFinds(order, own);
      }
    } else {
      var order := LookupMisses(records, own);
      assert Reordered(records, order);
    }
  }

  function SeenStatus(records: seq<Sight>, subsystem: string, fan: YamlFan): nat {
    var i := LookupIndex(records, Truncated(Naming.FullName(subsystem, fan.name)));
    if i < 0 then FanStatus.UNINITIALIZED else records[i].status
  }

  /** Running maximum over the fans of a FRU. */
  function WorstStatus(records: seq<Sight>, subsystem: string, fans: seq<YamlFan>): nat {
    if |fans| == 0 then FanStatus.UNINITIALIZED
    else
      var rest := WorstStatus(records, subsystem, fans[..|fans| - 1]);
      var last := SeenStatus(records, subsystem, fans[|fans| - 1]);
      if last > rest then last else rest
  }

  /** Running maximum over the FRUs. */
  function WorstFruStatus(records: seq<Sight>, subsystem: string, frus: seq<YamlFanFru>): nat {
    if |frus| == 0 then FanStatus.UNINITIALIZED
    else
      var rest := WorstFruStatus(records, subsystem, frus[..|frus| - 1]);
      var last := WorstStatus(records, subsystem, frus[|frus| - 1].fans);
      if last > rest then last else rest
  }

  function LedCode(values: LedValues, status: nat): Byte {
    if status == FanStatus.UNINITIALIZED then values.off
    else if status == FanStatus.OK then values.good
    else values.fault
  }

  function LedWrite(subsystem: string, info: YamlFanInfo, led: Option<BitOp>, status: nat): seq<RegWrite> {
    if led.None? then [] else [RegWrite(subsystem, led.value, LedCode(info.ledValues, status))]
  }

  function FruLedWrites(records: seq<Sight>, subsystem: string, info: YamlFanInfo, frus: seq<YamlFanFru>)
    : seq<RegWrite>
  {
    if |frus| == 0 then []
    else
      var n := |frus| - 1;
      FruLedWrites(records, subsystem, info, frus[..n]) +
      LedWrite(subsystem, info, frus[n].leds, WorstStatus(records, subsystem, frus[n].fans))
  }

  lemma FruLedWritesNext(records: seq<Sight>, subsystem: string, info: YamlFanInfo, frus: seq<YamlFanFru>, i: nat)
    requires i < |frus|
    ensures FruLedWrites(records, subsystem, info, frus[..i + 1]) ==
            FruLedWrites(records, subsystem, info, frus[..i]) +
            LedWrite(subsystem, info, frus[i].leds, WorstStatus(records, subsystem, frus[i].fans))
    ensures WorstFruStatus(records, subsystem, frus[..i + 1]) ==
            (var rest := WorstFruStatus(records, subsystem, frus[..i]);
             var last := WorstStatus(records, subsystem, frus[i].fans);
             if last > rest then last else rest)
  {
    assert frus[..i + 1][..i] == frus[..i];
  }

  /** All writes of one LED pass. */
  function LedWrites(yaml: Yaml, subsystem: string, records: seq<Sight>): seq<RegWrite> {
    match yaml(subsystem)
    case Loaded(info, frus) =>
      FruLedWrites(records, subsystem, info, frus) +
      LedWrite(subsystem, info, info.led, WorstFruStatus(records, subsystem, frus))
    case _ => []
  }

  /** What is written for a subsystem is addressed to it. */
  lemma WritesAreAddressed(yaml: Yaml, subsystem: string, speed: int, records: seq<Sight>)
    ensures forall w :: w in SpeedWrites(yaml, subsystem, speed) || w in LedWrites(yaml, subsystem, records) ==> w.subsystem == subsystem
  {
    if yaml(subsystem).Loaded? {
      FruLedWritesAddressed(records, subsystem, yaml(subsystem).info, yaml(subsystem).frus);
    }
  }

  lemma {:induction false} FruLedWritesAddressed(records: seq<Sight>, subsystem: string, info: YamlFanInfo, frus: seq<YamlFanFru>)
    ensures forall w :: w in FruLedWrites(records, subsystem, info, frus) ==> w.subsystem == subsystem
  {
    if |frus| > 0 {
      FruLedWritesAddressed(records, subsystem, info, frus[..|frus| - 1]);
    }
  }

  function Leds(yaml: Yaml, subsystem: string): set<BitOp> {
    match yaml(subsystem)
    case Loaded(info, frus) =>
      (set fru | fru in frus && fru.leds.Some? :: fru.leds.value) +
      (if info.led.Some? then {info.led.value} else {})
    case _ => {}
  }

  lemma {:induction false} LedWritesOnlyLeds(records: seq<Sight>, subsystem: string, info: YamlFanInfo, frus: seq<YamlFanFru>)
    ensures forall w :: w in FruLedWrites(records, subsystem, info, frus) ==>
                          exists i :: 0 <= i < |frus| && frus[i].leds == Some(w.op)
  {
    if |frus| > 0 {
      var n := |frus| - 1;
      LedWritesOnlyLeds(records, subsystem, info, frus[..n]);
      forall w | w in FruLedWrites(records, subsystem, info, frus)
        ensures exists i :: 0 <= i < |frus| && frus[i].leds == Some(w.op)
      {
        if w in FruLedWrites(records, subsystem, info, frus[..n]) {
          var i :| 0 <= i < n && frus[..n][i].leds == Some(w.op);
          assert frus[i].leds == Some(w.op);
        } else {
          assert frus[n].leds == Some(w.op);
        }
      }
    }
  }

  lemma LedWritesStayOnLeds(yaml: Yaml, subsystem: string, records: seq<Sight>)
    ensures forall w :: w in LedWrites(yaml, subsystem, records) ==> w.op in Leds(yaml, subsystem)
  {
    if yaml(subsystem).Loaded? {
      LedWritesOnlyLeds(records, subsystem, yaml(subsystem).info, yaml(subsystem).frus);
    }
  }

  /** No two FRUs share an LED, and none uses that of the subsystem. */
  ghost predicate LedsDistinct(info: YamlFanInfo, frus: seq<YamlFanFru>) {
    && (forall i, j :: 0 <= i < j < |frus| && frus[i].leds.Some? ==> frus[i].leds != frus[j].leds)
    && (forall i :: 0 <= i < |frus| && frus[i].leds.Some? ==> frus[i].leds != info.led)
  }

  lemma {:induction false} FruLedHolds(writes: seq<RegWrite>, records: seq<Sight>, subsystem: string, info: YamlFanInfo,
                                       frus: seq<YamlFanFru>, i: nat)
    requires LedsDistinct(info, frus) && i < |frus| && frus[i].leds.Some?
    ensures Register(writes + FruLedWrites(records, subsystem, info, frus), frus[i].leds.value) ==
            Some(LedCode(info.ledValues, WorstStatus(records, subsystem, frus[i].fans)))
  {
    hide Register, WorstStatus, LedCode;
    var n := |frus| - 1;
    var earlier := FruLedWrites(records, subsystem, info, frus[..n]);
    var status := WorstStatus(records, subsystem, frus[n].fans);
    var last := LedWrite(subsystem, info, frus[n].leds, status);
    Associative(writes, earlier, last);
    if i < n {
      FruLedHolds(writes, records, subsystem, info, frus[..n], i);
      RegisterUntouched(writes + earlier, last, frus[i].leds.value);
    } else {
      LedHolds(writes + earlier, subsystem, info, frus[n].leds.value, status);
    }
  }

  lemma LedHolds(writes: seq<RegWrite>, subsystem: string, info: YamlFanInfo, led: BitOp, status: nat)
    ensures Register(writes + LedWrite(subsystem, info, Some(led), status), led) == Some(LedCode(info.ledValues, status))
  {
    var last := LedWrite(subsystem, info, Some(led), status);
    assert last[0] in last;
    RegisterSet(writes, last, led, LedCode(info.ledValues, status));
  }

  /** With distinct LEDs, each LED holds the code of its own aggregate after a pass. */
  lemma LedsHold(writes: seq<RegWrite>, yaml: Yaml, subsystem: string, records: seq<Sight>)
    requires yaml(subsystem).Loaded? && LedsDistinct(yaml(subsystem).info, yaml(subsystem).frus)
    ensures var info, frus := yaml(subsystem).info, yaml(subsystem).frus;
            var after := writes + LedWrites(yaml, subsystem, records);
            && (forall i :: 0 <= i < |frus| && frus[i].leds.Some? ==>
                  Register(after, frus[i].leds.value) == Some(LedCode(info.ledValues, WorstStatus(records, subsystem, frus[i].fans))))
            && (info.led.Some? ==>
                  Register(after, info.led.value) == Some(LedCode(info.ledValues, WorstFruStatus(records, subsystem, frus))))
  {
    hide Register, WorstStatus, WorstFruStatus, LedCode;
    var info, frus := yaml(subsystem).info, yaml(subsystem).frus;
    var fruWrites := FruLedWrites(records, subsystem, info, frus);
    var last := LedWrite(subsystem, info, info.led, WorstFruStatus(records, subsystem, frus));
    Associative(writes, fruWrites, last);
    forall i | 0 <= i < |frus| && frus[i].leds.Some?
      ensures Register(writes + fruWrites + last, frus[i].leds.value) ==
              Some(LedCode(info.ledValues, WorstStatus(records, subsystem, frus[i].fans)))
    {
      FruLedHolds(writes, records, subsystem, info, frus, i);
      RegisterUntouched(writes + fruWrites, last, frus[i].leds.value);
    }
    if info.led.Some? {
      LedHolds(writes + fruWrites, subsystem, info, info.led.value, WorstFruStatus(records, subsystem, frus));
    }
  }

  // ----- LED aggregation -----

  /** Every described fan has its record, every full name fits the buffer, no name twice. */
  ghost predicate AllVisible(records: seq<Sight>, subsystem: string, fans: seq<YamlFan>) {
    && NamesUnique(records)
    && (forall fan :: fan in fans ==>
          |Naming.FullName(subsystem, fan.name)| <= NAME_LIMIT &&
          exists s :: s in records && s.name == Naming.FullName(subsystem, fan.name))
  }

  /** `b` is at least the cached status of each of these fans. */
  ghost predicate Dominates(b: nat, records: seq<Sight>, subsystem: string, fans: seq<YamlFan>) {
    forall fan, s :: fan in fans && s in records && s.name == Naming.FullName(subsystem, fan.name) ==> s.status <= b
  }

  /** What the lookup sees of a visible fan is its own status. */
  lemma SeesOwnStatus(records: seq<Sight>, subsystem: string, fan: YamlFan, b: nat)
    requires AllVisible(records, subsystem, [fan])
    ensures SeenStatus(records, subsystem, fan) <= b <==> Dominates(b, records, subsystem, [fan])
  {
    assert fan in [fan];
    var own :| own in records && own.name == Naming.FullName(subsystem, fan.name);
    LookupFinds(records, own);
    forall s | s in records && s.name == own.name ensures s == own {
      SameName(records, s, own);
    }
  }

  lemma DominatesBoth(b: nat, records: seq<Sight>, subsystem: string, fans: seq<YamlFan>, more: seq<YamlFan>)
    ensures Dominates(b, records, subsystem, fans + more) <==>
            Dominates(b, records, subsystem, fans) && Dominates(b, records, subsystem, more)
  {
    assert forall fan :: fan in fans + more <==> fan in fans || fan in more;
  }

  /** The running maximum is the least bound of the cached statuses. */
  lemma {:induction false} WorstStatusIsLeast(records: seq<Sight>, subsystem: string, fans: seq<YamlFan>, b: nat)
    requires AllVisible(records, subsystem, fans)
    ensures WorstStatus(records, subsystem, fans) <= b <==> Dominates(b, records, subsystem, fans)
  {
    if |fans| > 0 {
      var n := |fans| - 1;
      assert fans == fans[..n] + [fans[n]];
      assert fans[n] in fans;
      WorstStatusIsLeast(records, subsystem, fans[..n], b);
      SeesOwnStatus(records, subsystem, fans[n], b);
      DominatesBoth(b, records, subsystem, fans[..n], [fans[n]]);
    }
  }

  lemma {:induction false} WorstFruStatusIsLeast(records: seq<Sight>, subsystem: string, frus: seq<YamlFanFru>, b: nat)
    requires AllVisible(records, subsystem, AllFans(frus))
    ensures WorstFruStatus(records, subsystem, frus) <= b <==> Dominates(b, records, subsystem, AllFans(frus))
  {
    if |frus| > 0 {
      var n := |frus| - 1;
      assert AllFans(frus) == AllFans(frus[..n]) + frus[n].fans;
      WorstFruStatusIsLeast(records, subsystem, frus[..n], b);
      WorstStatusIsLeast(records, subsystem, frus[n].fans, b);
      DominatesBoth(b, records, subsystem, AllFans(frus[..n]), frus[n].fans);
    }
  }

  /** The summary LED depends only on which fans there are and what their cached status is:
      not on the iteration order, the order of FRUs, or how fans are grouped in FRUs. */
  lemma SummaryLedOrderFree(a: seq<Sight>, b: seq<Sight>, subsystem: string, frus: seq<YamlFanFru>, regrouped: seq<YamlFanFru>)
    requires multiset(a) == multiset(b)
    requires AllVisible(a, subsystem, AllFans(frus)) && AllVisible(b, subsystem, AllFans(regrouped))
    requires forall fan :: fan in AllFans(frus) <==> fan in AllFans(regrouped)
    ensures WorstFruStatus(a, subsystem, frus) == WorstFruStatus(b, subsystem, regrouped)
  {
    assert forall s :: s in a <==> s in multiset(a);
    assert forall s :: s in b <==> s in multiset(b);
    var x := WorstFruStatus(a, subsystem, frus);
    var y := WorstFruStatus(b, subsystem, regrouped);
    WorstFruStatusIsLeast(a, subsystem, frus, x);
    WorstFruStatusIsLeast(a, subsystem, frus, y);
    WorstFruStatusIsLeast(b, subsystem, regrouped, x);
    WorstFruStatusIsLeast(b, subsystem, regrouped, y);
  }

  // ----- registers that hold a speed -----

  ghost predicate RegistersDisjoint(yaml: Yaml) {
    forall s, t, op :: op in SpeedRegisters(yaml, s) ==> op !in Leds(yaml, t) && (s != t ==> op !in SpeedRegisters(yaml, t))
  }

  function SpeedRegisters(yaml: Yaml, subsystem: string): seq<BitOp> {
    match yaml(subsystem)
    case Loaded(info, frus) => SpeedControls(info, frus)
    case _ => []
  }

  /** Every speed control of the subsystem holds the hardware setting for this speed. */
  ghost predicate HoldsSpeed(writes: seq<RegWrite>, yaml: Yaml, subsystem: string, speed: int) {
    yaml(subsystem).Loaded? ==>
      forall op :: op in SpeedRegisters(yaml, subsystem) ==>
        Register(writes, op) == Some(SpeedSetting(yaml(subsystem).info.settings, speed))
  }

  /** Each level has its own setting. */
  lemma SettingByName(settings: SpeedSettings, speed: int)
    requires 0 <= speed <= 4
    ensures FanSpeed.PrintSpeed(speed) == "slow" ==> SpeedSetting(settings, speed) == settings.slow
    ensures FanSpeed.PrintSpeed(speed) == "normal" ==> SpeedSetting(settings, speed) == settings.normal
    ensures FanSpeed.PrintSpeed(speed) == "medium" ==> SpeedSetting(settings, speed) == settings.medium
    ensures FanSpeed.PrintSpeed(speed) == "fast" ==> SpeedSetting(settings, speed) == settings.fast
    ensures FanSpeed.PrintSpeed(speed) == "max" ==> SpeedSetting(settings, speed) == settings.max
  {
    FanSpeed.LevelsOfNames();
    assert FanSpeed.ParseSpeed(Some(FanSpeed.PrintSpeed(speed))) == speed;
  }

  /** After a speed change every control of the subsystem holds the setting of that level. */
  lemma SpeedWritesHold(writes: seq<RegWrite>, yaml: Yaml, subsystem: string, speed: int)
    ensures HoldsSpeed(writes + SpeedWrites(yaml, subsystem, speed), yaml, subsystem, speed)
    ensures yaml(subsystem).Loaded? ==>
              var settings := yaml(subsystem).info.settings;
              forall op :: op in SpeedRegisters(yaml, subsystem) ==>
                Register(writes + SpeedWrites(yaml, subsystem, speed), op) ==
                Some(match speed case 0 => settings.slow case 2 => settings.medium case 3 => settings.fast
                                 case 4 => settings.max case _ => settings.normal)
  {
    var more := SpeedWrites(yaml, subsystem, speed);
    forall op | yaml(subsystem).Loaded? && op in SpeedRegisters(yaml, subsystem)
      ensures Register(writes + more, op) == Some(SpeedSetting(yaml(subsystem).info.settings, speed))
    {
      var i :| 0 <= i < |SpeedRegisters(yaml, subsystem)| && SpeedRegisters(yaml, subsystem)[i] == op;
      assert more[i] in more;
      RegisterSet(writes, more, op, SpeedSetting(yaml(subsystem).info.settings, speed));
    }
  }

  lemma UntouchedKeep(writes: seq<RegWrite>, more: seq<RegWrite>, yaml: Yaml, subsystem: string, speed: int)
    requires forall w :: w in more ==> w.op !in SpeedRegisters(yaml, subsystem)
    requires HoldsSpeed(writes, yaml, subsystem, speed)
    ensures HoldsSpeed(writes + more, yaml, subsystem, speed)
  {
    forall op | op in SpeedRegisters(yaml, subsystem)
      ensures Register(writes + more, op) == Register(writes, op)
    {
      RegisterUntouched(writes, more, op);
    }
  }

  /** Speed changes of another subsystem leave the registers alone. */
  lemma OtherSpeedWritesKeep(writes: seq<RegWrite>, yaml: Yaml, subsystem: string, speed: int, other: string, otherSpeed: int)
    requires RegistersDisjoint(yaml) && subsystem != other
    requires HoldsSpeed(writes, yaml, subsystem, speed)
    ensures HoldsSpeed(writes + SpeedWrites(yaml, other, otherSpeed), yaml, subsystem, speed)
  {
    var more := SpeedWrites(yaml, other, otherSpeed);
    forall w | w in more ensures w.op !in SpeedRegisters(yaml, subsystem) {
      assert w.op in SpeedRegisters(yaml, other);
    }
    UntouchedKeep(writes, more, yaml, subsystem, speed);
  }

  /** LED passes of any subsystem leave the registers alone. */
  lemma LedWritesKeep(writes: seq<RegWrite>, yaml: Yaml, subsystem: string, speed: int, other: string, records: seq<Sight>)
    requires RegistersDisjoint(yaml)
    requires HoldsSpeed(writes, yaml, subsystem, speed)
    ensures HoldsSpeed(writes + LedWrites(yaml, other, records), yaml, subsystem, speed)
  {
    var more := LedWrites(yaml, other, records);
    LedWritesStayOnLeds(yaml, other, records);
    forall w | w in more ensures w.op !in SpeedRegisters(yaml, subsystem) {
      assert w.op in Leds(yaml, other);
    }
    UntouchedKeep(writes, more, yaml, subsystem, speed);
  }
}
