/** The hardware layer: speed and LED writes, and the poll of one fan. */
module PhysFan {
  import opened Platform
  import FanSpeed
  import opened FanStatus
  import Naming
  import Shash
  import Bus
  import Records
  import opened Controls
  import opened Readings

  // ----- fan speed -----

  /** Record the arbitrated speed and send its setting to every speed control of the subsystem. */
  method SetFanSpeed(yaml: Yaml, bus: Bus.I2cBus, subsystem: Records.LoclSubsystem)
    modifies bus, subsystem`speed
    ensures subsystem.speed == FanSpeed.Arbitrate(subsystem.fanSpeedOverride, subsystem.fanSpeed)
    ensures subsystem.fanSpeed == 4 ==> subsystem.speed == 4
    ensures subsystem.fanSpeed != 4 && subsystem.fanSpeedOverride != -1 ==> subsystem.speed == subsystem.fanSpeedOverride
    ensures subsystem.fanSpeed != -1 && subsystem.fanSpeedOverride == -1 ==> subsystem.speed == subsystem.fanSpeed
    ensures subsystem.fanSpeed == -1 && subsystem.fanSpeedOverride == -1 ==> subsystem.speed == 1
    ensures bus.writes == old(bus.writes) + SpeedWrites(yaml, subsystem.name, subsystem.speed)
  {
    var speed := subsystem.fanSpeedOverride;
    if speed == FanSpeed.NONE || subsystem.fanSpeed == FanSpeed.MAX {
      speed := subsystem.fanSpeed;
    }
    if speed == FanSpeed.NONE {
      speed := FanSpeed.NORMAL;
    }
    subsystem.speed := speed;

    if !yaml(subsystem.name).Loaded? {
      return;
    }
    var info := yaml(subsystem.name).info;
    var value;
    if speed == FanSpeed.SLOW {
      value := info.settings.slow;
    } else if speed == FanSpeed.MEDIUM {
      value := info.settings.medium;
    } else if speed == FanSpeed.FAST {
      value := info.settings.fast;
    } else if speed == FanSpeed.MAX {
      value := info.settings.max;
    } else {
      value := info.settings.normal;
    }
    WriteControls(info, yaml(subsystem.name).frus, bus, subsystem.name, value);
  }

  method WriteControls(info: YamlFanInfo, frus: seq<YamlFanFru>, bus: Bus.I2cBus, name: string, value: Byte)
    modifies bus
    ensures bus.writes == old(bus.writes) + Broadcast(name, SpeedControls(info, frus), value)
  {
    if info.controlType == SINGLE {
      WriteControl(info.speedControl, bus, name, value);
      return;
    }
    for idx := 0 to |frus|
      invariant bus.writes == old(bus.writes) + Broadcast(name, ControlsInFrus(info.controlType, frus[..idx]), value)
    {
      if info.controlType.INVALID? {
        InvalidTypeHasNoControls(info.controlType.code, frus);
        InvalidTypeHasNoControls(info.controlType.code, frus[..idx]);
        return;
      }
      ControlsInFrusNext(info.controlType, frus, idx);
      BroadcastConcat(name, ControlsInFrus(info.controlType, frus[..idx]),
                      ControlsInFru(info.controlType, frus[idx]), value);
      WriteFruControls(info.controlType, frus[idx], bus, name, value);
      Associative(old(bus.writes), Broadcast(name, ControlsInFrus(info.controlType, frus[..idx]), value),
                  Broadcast(name, ControlsInFru(info.controlType, frus[idx]), value));
    }
    assert frus[..|frus|] == frus;
  }

  method WriteFruControls(controlType: ControlType, fru: YamlFanFru, bus: Bus.I2cBus, name: string, value: Byte)
    requires controlType == PER_FRU || controlType == PER_FAN
    modifies bus
    ensures bus.writes == old(bus.writes) + Broadcast(name, ControlsInFru(controlType, fru), value)
  {
    if controlType == PER_FRU {
      WriteControl(fru.speedControl, bus, name, value);
    } else {
      WriteFanControls(fru.fans, bus, name, value);
    }
  }

  method WriteControl(op: Option<BitOp>, bus: Bus.I2cBus, name: string, value: Byte)
    modifies bus
    ensures bus.writes == old(bus.writes) + Broadcast(name, Present(op), value)
  {
    if op.None? {
      return;
    }
    bus.RegisterWrite(name, op.value, value);
  }

  method WriteFanControls(fans: seq<YamlFan>, bus: Bus.I2cBus, name: string, value: Byte)
    modifies bus
    ensures bus.writes == old(bus.writes) + Broadcast(name, FanControls(fans), value)
  {
    for idx := 0 to |fans|
      invariant bus.writes == old(bus.writes) + Broadcast(name, FanControls(fans[..idx]), value)
    {
      FanControlsNext(fans, idx);
      BroadcastConcat(name, FanControls(fans[..idx]), Present(fans[idx].speedControl), value);
      WriteControl(fans[idx].speedControl, bus, name, value);
      Associative(old(bus.writes), Broadcast(name, FanControls(fans[..idx]), value),
                  Broadcast(name, Present(fans[idx].speedControl), value));
    }
    assert fans[..|fans|] == fans;
  }

  // ----- LEDs -----

  /** Name and cached status of the records, in iteration order. */
  ghost function Sights(nodes: Shash.Shash<Records.LoclFan>): (r: seq<Sight>)
    reads set node | node in nodes :: node.data
    ensures |r| == |nodes|
    ensures forall i :: 0 <= i < |nodes| ==> r[i] == Sight(nodes[i].data.name, nodes[i].data.status)
  {
    seq(|nodes|, i requires 0 <= i < |nodes| reads set node | node in nodes :: node.data =>
      Sight(nodes[i].data.name, nodes[i].data.status))
  }

  /** Search by short name; without a match the last record visited is returned. */
  method GetLocalFan(subsystem: Records.LoclSubsystem, name: string) returns (fan: Records.LoclFan?)
    ensures fan == null <==> subsystem.subsystemFans == []
    ensures fan != null ==>
              var i := LookupIndex(Sights(subsystem.subsystemFans), Truncated(Naming.FullName(subsystem.name, name)));
              fan == subsystem.subsystemFans[i].data
  {
    var fullName := Truncated(Naming.FullName(subsystem.name, name));
    var nodes := subsystem.subsystemFans;
    ghost var sights := Sights(nodes);
    fan := null;
    var i := 0;
    while i < |nodes|
      invariant 0 <= i <= |nodes|
      invariant i == 0 ==> fan == null
      invariant i > 0 ==> fan == nodes[i - 1].data
      invariant i < |nodes| ==> LookupIndex(sights, fullName) == i + LookupIndex(sights[i..], fullName)
      invariant i == |nodes| > 0 ==> LookupIndex(sights, fullName) == |nodes| - 1
      invariant sights[0..] == sights
    {
      fan := nodes[i].data;
      if fan.name == fullName {
        assert LookupIndex(sights[i..], fullName) == 0;
        break;
      }
      assert sights[i..][1..] == sights[i + 1..];
      i := i + 1;
    }
  }

  method SetLed(bus: Bus.I2cBus, name: string, info: YamlFanInfo, led: BitOp, status: nat)
    modifies bus
    ensures bus.writes == old(bus.writes) + LedWrite(name, info, Some(led), status)
  {
    var value;
    if status == UNINITIALIZED {
      value := info.ledValues.off;
    } else if status == OK {
      value := info.ledValues.good;
    } else {
      value := info.ledValues.fault;
    }
    bus.RegisterWrite(name, led, value);
  }

  /** Show the worst cached status of each FRU, and of the subsystem, on their LEDs. */
  method SetFanLeds(yaml: Yaml, bus: Bus.I2cBus, subsystem: Records.LoclSubsystem)
    modifies bus
    ensures bus.writes == old(bus.writes) + LedWrites(yaml, subsystem.name, Sights(subsystem.subsystemFans))
  {
    if !yaml(subsystem.name).Loaded? {
      return;
    }
    var info, frus := yaml(subsystem.name).info, yaml(subsystem.name).frus;
    var aggregate := SetFruLeds(info, frus, bus, subsystem);
    if info.led.Some? {
      SetLed(bus, subsystem.name, info, info.led.value, aggregate);
    }
    Associative(old(bus.writes), FruLedWrites(Sights(subsystem.subsystemFans), subsystem.name, info, frus),
                LedWrite(subsystem.name, info, info.led, aggregate));
  }

  method SetFruLeds(info: YamlFanInfo, frus: seq<YamlFanFru>, bus: Bus.I2cBus, subsystem: Records.LoclSubsystem)
    returns (aggregate: nat)
    modifies bus
    ensures aggregate == WorstFruStatus(Sights(subsystem.subsystemFans), subsystem.name, frus)
    ensures bus.writes == old(bus.writes) + FruLedWrites(Sights(subsystem.subsystemFans), subsystem.name, info, frus)
  {
    ghost var sights := Sights(subsystem.subsystemFans);
    aggregate := UNINITIALIZED;
    for idx := 0 to |frus|
      invariant sights == Sights(subsystem.subsystemFans)
      invariant aggregate == WorstFruStatus(sights, subsystem.name, frus[..idx])
      invariant bus.writes == old(bus.writes) + FruLedWrites(sights, subsystem.name, info, frus[..idx])
    {
      FruLedWritesNext(sights, subsystem.name, info, frus, idx);
      var status := SetFruLed(info, frus[idx], bus, subsystem, sights);
      Associative(old(bus.writes), FruLedWrites(sights, subsystem.name, info, frus[..idx]),
                  LedWrite(subsystem.name, info, frus[idx].leds, status));
      if status > aggregate {
        aggregate := status;
      }
    }
    assert frus[..|frus|] == frus;
  }

  method SetFruLed(info: YamlFanInfo, fru: YamlFanFru, bus: Bus.I2cBus, subsystem: Records.LoclSubsystem, ghost sights: seq<Sight>)
    returns (status: nat)
    requires sights == Sights(subsystem.subsystemFans)
    modifies bus
    ensures status == WorstStatus(sights, subsystem.name, fru.fans)
    ensures bus.writes == old(bus.writes) + LedWrite(subsystem.name, info, fru.leds, status)
  {
    status := FruStatus(subsystem, fru.fans, sights);
    if fru.leds.None? {
      return;
    }
    SetLed(bus, subsystem.name, info, fru.leds.value, status);
  }

  method FruStatus(subsystem: Records.LoclSubsystem, fans: seq<YamlFan>, ghost sights: seq<Sight>) returns (status: nat)
    requires sights == Sights(subsystem.subsystemFans)
    ensures status == WorstStatus(sights, subsystem.name, fans)
  {
    status := UNINITIALIZED;
    for idx := 0 to |fans|
      invariant status == WorstStatus(sights, subsystem.name, fans[..idx])
    {
      assert fans[..idx + 1][..idx] == fans[..idx];
      var fan := GetLocalFan(subsystem, fans[idx].name);
      if fan != null && fan.status > status {
        status := fan.status;
      }
    }
    assert fans[..|fans|] == fans;
  }

  // ----- poll -----

  /** Adding in 32 bits and then reading the sum as signed is the same as wrapping once. */
  lemma UnsignedSumWraps(a: int, b: int)
    ensures var sum := (a + b % 0x1_0000_0000) % 0x1_0000_0000;
            Wrap32(a + b) == if sum < 0x8000_0000 then sum else sum - 0x1_0000_0000
  {
    assert (a + b % 0x1_0000_0000) % 0x1_0000_0000 == (a + b) % 0x1_0000_0000;
    SignedReading(a + b);
  }

  lemma SignedReading(x: int)
    ensures Wrap32(x) == var u := x % 0x1_0000_0000; if u < 0x8000_0000 then u else u - 0x1_0000_0000
  {
  }

  method ReadRpm(hw: Hw, fan: YamlFan) returns (rpm: Int32)
    ensures rpm == RawCount(hw, fan)
  {
    hide Wrap32;
    var lsb := hw(fan.speedLsb);
    if lsb.ReadFails? {
      return 0;
    }
    SignedReading(lsb.value);
    var count: UInt32 := lsb.value;
    if fan.speedMsb.Some? {
      var msb := hw(fan.speedMsb.value);
      if msb.ReadFails? {
        return 0;
      }
      var shifted: UInt32 := msb.value * 0x100 % 0x1_0000_0000;
      UnsignedSumWraps(count, msb.value * 0x100);
      count := (count + shifted) % 0x1_0000_0000;
    }
    rpm := if count < 0x8000_0000 then count else count - 0x1_0000_0000;
  }

  method ReadStatus(hw: Hw, fan: YamlFan) returns (status: nat)
    ensures status == FaultStatus(hw, fan)
  {
    var value := hw(fan.fault);
    if value.ReadFails? {
      return 0;
    }
    if value.value != 0 {
      return FAULT;
    }
    return OK;
  }

  /** The FRU that holds a fan, found by the identity of the fan. */
  method FanFruGet(yaml: Yaml, name: string, fan: YamlFan) returns (fru: Option<YamlFanFru>)
    ensures fru == Owner(Frus(yaml, name), fan)
  {
    var frus := Frus(yaml, name);
    assert frus[0..] == frus;
    for idx := 0 to |frus|
      invariant Owner(frus, fan) == Owner(frus[idx..], fan)
    {
      assert frus[idx..][1..] == frus[idx + 1..];
      var fans := frus[idx].fans;
      for fanIdx := 0 to |fans|
        invariant fan !in fans[..fanIdx]
      {
        if fan == fans[fanIdx] {
          return Some(frus[idx]);
        }
      }
      assert fans[..|fans|] == fans;
    }
    return None;
  }

  method ReadFruDirection(hw: Hw, detect: BitOp, info: YamlFanInfo) returns (direction: Direction)
    ensures direction == FruDirection(hw, detect, info.directionF2b)
  {
    var value := hw(detect);
    if value.ReadFails? {
      return F2B;
    }
    if value.value != 0 {
      if info.directionF2b != 0 {
        return F2B;
      } else {
        return B2F;
      }
    } else {
      if info.directionF2b != 0 {
        return B2F;
      } else {
        return F2B;
      }
    }
  }

  method ReadDirection(yaml: Yaml, hw: Hw, name: string, fan: YamlFan) returns (direction: string)
    ensures direction == PrintDirection(FanDirection(yaml, hw, name, fan))
  {
    var result := F2B;
    var fru := FanFruGet(yaml, name, fan);
    if fru.None? {
      return PrintDirection(result);
    }
    if fru.value.directionDetect.Some? {
      result := ReadFruDirection(hw, fru.value.directionDetect.value, yaml(name).info);
    }
    return PrintDirection(result);
  }

  method ReadPresent(hw: Hw, fru: YamlFanFru) returns (present: bool)
    ensures present == FruPresent(hw, fru)
  {
    if fru.present.None? {
      return true;
    }
    var value := hw(fru.present.value);
    if value.ReadFails? {
      return false;
    }
    return value.value != 0;
  }

  /** Refresh the cached readings of one fan. The FRU that the presence read needs exists
      because the fan is described. */
  method ReadFanStatus(yaml: Yaml, hw: Hw, fan: Records.LoclFan)
    requires fan.yamlFan in AllFans(Frus(yaml, fan.subsystem.name))
    modifies fan`direction, fan`rpm, fan`status
    ensures Sample(fan.direction, fan.rpm, fan.status) ==
            Poll(yaml, hw, fan.subsystem.name, fan.yamlFan, fan.subsystem.multiplier, fan.subsystem.numerator)
  {
    fan.direction := ReadDirection(yaml, hw, fan.subsystem.name, fan.yamlFan);
    var fru := FanFruGet(yaml, fan.subsystem.name, fan.yamlFan);
    OwnerExact(Frus(yaml, fan.subsystem.name), fan.yamlFan);
    var present := ReadPresent(hw, fru.value);
    if !present {
      fan.status := FAULT;
      fan.rpm := 0;
      return;
    }
    fan.rpm := ReadRpm(hw, fan.yamlFan);
    if fan.subsystem.multiplier != 0 {
      fan.rpm := Wrap32(fan.rpm * fan.subsystem.multiplier);
    } else if fan.subsystem.numerator != 0 {
      if fan.rpm != 0 {
        fan.rpm := Wrap32(TruncatedQuotient(fan.subsystem.numerator, fan.rpm));
      } else {
        fan.rpm := 0;
      }
    }
    fan.status := ReadStatus(hw, fan.yamlFan);
  }
}
