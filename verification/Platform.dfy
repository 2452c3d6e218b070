/** The hardware description that the config-yaml library hands to the daemon.

    The library is an oracle: for every subsystem name it either fails at one of its
    four steps or yields an immutable description.
 */
module Platform {

  datatype Option<+T> = None | Some(value: T)

  type Byte = x: int | 0 <= x < 0x100
  type UInt32 = x: int | 0 <= x < 0x1_0000_0000
  type Int32 = x: int | -0x8000_0000 <= x < 0x8000_0000

  /** One register field that can be read or written over I2C. */
  datatype BitOp = BitOp(id: nat)

  /** `addr` is the identity of the structure: the code compares pointers to fans. */
  datatype YamlFan = YamlFan(
    addr: nat,
    name: string,
    speedControl: Option<BitOp>,
    speedLsb: BitOp,
    speedMsb: Option<BitOp>,
    fault: BitOp)

  datatype YamlFanFru = YamlFanFru(
    fans: seq<YamlFan>,
    speedControl: Option<BitOp>,
    leds: Option<BitOp>,
    directionDetect: Option<BitOp>,
    present: Option<BitOp>)

  /** The description may hold a control type outside the enumeration. */
  datatype ControlType = SINGLE | PER_FRU | PER_FAN | INVALID(code: int)

  datatype SpeedSettings = SpeedSettings(slow: Byte, normal: Byte, medium: Byte, fast: Byte, max: Byte)

  datatype LedValues = LedValues(off: Byte, good: Byte, fault: Byte)

  datatype YamlFanInfo = YamlFanInfo(
    multiplier: Int32,
    numerator: Int32,
    controlType: ControlType,
    speedControl: Option<BitOp>,
    settings: SpeedSettings,
    ledValues: LedValues,
    led: Option<BitOp>,
    directionF2b: int)

  datatype LoadOutcome =
    | AddFails
    | DevicesFail
    | FansFail
    | NoFanInfo
    | Loaded(info: YamlFanInfo, frus: seq<YamlFanFru>)

  type Yaml = string -> LoadOutcome

  lemma Associative<T>(a: seq<T>, b: seq<T>, c: seq<T>)
    ensures (a + b) + c == a + (b + c)
  {
  }

  function Frus(yaml: Yaml, name: string): seq<YamlFanFru> {
    if yaml(name).Loaded? then yaml(name).frus else []
  }

  /** All fans of a description, FRU by FRU. */
  function AllFans(frus: seq<YamlFanFru>): seq<YamlFan> {
    if |frus| == 0 then [] else AllFans(frus[..|frus| - 1]) + frus[|frus| - 1].fans
  }

  lemma AllFansNext(frus: seq<YamlFanFru>, i: nat)
    requires i < |frus|
    ensures AllFans(frus[..i + 1]) == AllFans(frus[..i]) + frus[i].fans
  {
    assert frus[..i + 1][..i] == frus[..i];
  }

  /** Fan `j` of FRU `i` follows the fans of all earlier FRUs. */
  lemma {:induction false} AllFansAt(frus: seq<YamlFanFru>, i: nat, j: nat)
    requires i < |frus| && j < |frus[i].fans|
    ensures |AllFans(frus[..i])| + j < |AllFans(frus)|
    ensures AllFans(frus)[|AllFans(frus[..i])| + j] == frus[i].fans[j]
  {
    var n := |frus| - 1;
    if i < n {
      AllFansAt(frus[..n], i, j);
      assert frus[..n][..i] == frus[..i];
    }
  }

  lemma {:induction false} InAllFans(frus: seq<YamlFanFru>, fan: YamlFan)
    ensures fan in AllFans(frus) <==> exists i :: 0 <= i < |frus| && fan in frus[i].fans
  {
    if |frus| > 0 {
      var n := |frus| - 1;
      InAllFans(frus[..n], fan);
      assert forall i :: 0 <= i < n ==> frus[..n][i] == frus[i];
    }
  }
}
