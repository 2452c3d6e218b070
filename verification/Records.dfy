/** The daemon's heap records. */
module Records {
  import opened Platform
  import FanSpeed
  import Shash

  class LoclSubsystem {
    const name: string
    var marked: bool
    var valid: bool
    var fanSpeed: FanSpeed.Speed
    var fanSpeedOverride: FanSpeed.Speed
    var speed: FanSpeed.Speed
    var multiplier: Int32
    var numerator: Int32
    var subsystemFans: Shash.Shash<LoclFan>

    /** Allocation followed by memset to zero. */
    constructor (name: string)
      ensures this.name == name && !marked && !valid
      ensures fanSpeed == 0 && fanSpeedOverride == 0 && speed == 0 && multiplier == 0 && numerator == 0
      ensures subsystemFans == []
    {
      this.name := name;
      marked, valid := false, false;
      fanSpeed, fanSpeedOverride, speed := 0, 0, 0;
      multiplier, numerator := 0, 0;
      subsystemFans := [];
    }
  }

  class LoclFan {
    const name: string
    const subsystem: LoclSubsystem
    const yamlFan: YamlFan
    var speed: int
    var direction: string
    var rpm: Int32
    var status: nat

    /** The four readings are left as the allocator returns them: arbitrary. */
    constructor (name: string, subsystem: LoclSubsystem, yamlFan: YamlFan)
      ensures this.name == name && this.subsystem == subsystem && this.yamlFan == yamlFan
    {
      this.name := name;
      this.subsystem := subsystem;
      this.yamlFan := yamlFan;
    }
  }
}
