/** What one poll reads for a fan, and the arithmetic on its speed counter. */
module Readings {
  import opened Platform
  import opened FanStatus

  /** An I2C read yields a 32-bit value or a negative return code. */
  datatype Reading = Value(value: UInt32) | ReadFails

  type Hw = BitOp -> Reading

  // ----- owner search -----

  /** The first FRU that lists the fan. */
  function Owner(frus: seq<YamlFanFru>, fan: YamlFan): Option<YamlFanFru> {
    if |frus| == 0 then None
    else if fan in frus[0].fans then Some(frus[0])
    else Owner(frus[1..], fan)
  }

  /** A described fan has an owning FRU, and with each fan in one FRU it is the FRU that lists it. */
  lemma {:induction false} OwnerExact(frus: seq<YamlFanFru>, fan: YamlFan)
    ensures Owner(frus, fan).Some? <==> fan in AllFans(frus)
    ensures Owner(frus, fan).Some? ==> Owner(frus, fan).value in frus && fan in Owner(frus, fan).value.fans
    ensures forall i :: 0 <= i < |frus| && fan in frus[i].fans && (forall j :: 0 <= j < i ==> fan !in frus[j].fans)
                        ==> Owner(frus, fan) == Some(frus[i])
  {
    InAllFans(frus, fan);
    if |frus| > 0 && fan !in frus[0].fans {
      OwnerExact(frus[1..], fan);
      InAllFans(frus[1..], fan);
      assert forall i :: 0 < i < |frus| ==> frus[1..][i - 1] == frus[i];
    }
  }

  // ----- 32-bit arithmetic -----

  function Wrap32(x: int): Int32 {
    (x + 0x8000_0000) % 0x1_0000_0000 - 0x8000_0000
  }

  lemma Wrap32Exact(x: int)
    ensures Wrap32(x) == x <==> -0x8000_0000 <= x < 0x8000_0000
  {
  }

  /** C division: truncation towards zero. */
  function TruncatedQuotient(a: int, b: int): int
    requires b != 0
  {
    if a >= 0 then (if b > 0 then a / b else -(a / -b))
    else if b > 0 then -(-a / b) else -a / -b
  }

  /** The speed counter: the low byte plus the shifted high byte, in 32 bits. */
  function RawCount(hw: Hw, fan: YamlFan): Int32 {
    match hw(fan.speedLsb)
    case ReadFails => 0
    case Value(lsb) =>
      if fan.speedMsb.None? then Wrap32(lsb)
      else
        match hw(fan.speedMsb.value)
        case ReadFails => 0
        case Value(msb) => Wrap32(lsb + msb * 0x100)
  }

  function ScaledRpm(multiplier: Int32, numerator: Int32, raw: Int32): Int32 {
    if multiplier != 0 then Wrap32(raw * multiplier)
    else if numerator != 0 then (if raw != 0 then Wrap32(TruncatedQuotient(numerator, raw)) else 0)
    else raw
  }

  /** With byte-valued registers the count holds both bytes. */
  lemma RawCountBytes(hw: Hw, fan: YamlFan)
    requires hw(fan.speedLsb).Value? && hw(fan.speedLsb).value < 0x100
    requires fan.speedMsb.Some? ==> hw(fan.speedMsb.value).Value? && hw(fan.speedMsb.value).value < 0x100
    ensures 0 <= RawCount(hw, fan) < 0x1_0000
    ensures RawCount(hw, fan) % 0x100 == hw(fan.speedLsb).value
    ensures RawCount(hw, fan) / 0x100 == if fan.speedMsb.Some? then hw(fan.speedMsb.value).value else 0
  {
  }

  /** Whatever the registers hold, the count is their sum, high byte shifted, up to a multiple of 2^32. */
  lemma RawCountModulo(hw: Hw, fan: YamlFan)
    requires hw(fan.speedLsb).Value? && (fan.speedMsb.Some? ==> hw(fan.speedMsb.value).Value?)
    ensures var sum := hw(fan.speedLsb).value + if fan.speedMsb.Some? then 256 * hw(fan.speedMsb.value).value else 0;
            (RawCount(hw, fan) - sum) % 0x1_0000_0000 == 0
  {
    var sum := hw(fan.speedLsb).value + if fan.speedMsb.Some? then 256 * hw(fan.speedMsb.value).value else 0;
    assert RawCount(hw, fan) == Wrap32(sum);
    Wrap32Modulo(sum);
  }

  lemma Wrap32Modulo(x: int)
    ensures (Wrap32(x) - x) % 0x1_0000_0000 == 0
  {
    var m := 0x1_0000_0000;
    var q := (x + 0x8000_0000) / m;
    assert x + 0x8000_0000 == q * m + (x + 0x8000_0000) % m;
    assert Wrap32(x) - x == -q * m;
  }

  /** The multiplied count never overflows for any two-byte reading exactly when the
      multiplier's magnitude is at most 32768. */
  lemma ProductFits(multiplier: Int32, numerator: Int32)
    requires multiplier != 0
    ensures (forall raw: Int32 :: 0 <= raw < 0x1_0000 ==> ScaledRpm(multiplier, numerator, raw) == raw * multiplier)
            <==> -0x8000 <= multiplier <= 0x8000
  {
    if -0x8000 <= multiplier <= 0x8000 {
      forall raw: Int32 | 0 <= raw < 0x1_0000 ensures ScaledRpm(multiplier, numerator, raw) == raw * multiplier {
        ProductBounds(raw, multiplier);
        Wrap32Exact(raw * multiplier);
      }
    } else {
      var raw: Int32 := 0xFFFF;
      Wrap32Exact(raw * multiplier);
      assert ScaledRpm(multiplier, numerator, raw) != raw * multiplier;
    }
  }

  lemma ProductBounds(raw: int, multiplier: int)
    requires 0 <= raw < 0x1_0000 && -0x8000 <= multiplier <= 0x8000
    ensures -0x8000 * raw <= raw * multiplier <= 0x8000 * raw
  {
  }

  /** Division mode: the reported speed is the exact integer quotient of the numerator. */
  lemma QuotientBounds(numerator: Int32, raw: Int32)
    requires numerator > 0 && raw >= 0
    ensures raw == 0 ==> ScaledRpm(0, numerator, raw) == 0
    ensures raw > 0 ==> ScaledRpm(0, numerator, raw) * raw <= numerator < (ScaledRpm(0, numerator, raw) + 1) * raw
  {
    if raw > 0 {
      DivisionBounds(numerator, raw);
      Wrap32Exact(numerator / raw);
    }
  }

  lemma DivisionBounds(n: nat, d: nat)
    requires d > 0
    ensures (n / d) * d <= n < (n / d + 1) * d
    ensures 0 <= n / d <= n
  {
    var q := n / d;
    assert n == q * d + n % d;
    MulMono(1, d, q);
  }

  /** A negative numerator gives a negative quotient, truncated towards zero. */
  lemma NegativeQuotientBounds(numerator: Int32, raw: Int32)
    requires numerator < 0 && raw > 0
    ensures (ScaledRpm(0, numerator, raw) - 1) * raw < numerator <= ScaledRpm(0, numerator, raw) * raw
  {
    var n: int, d: int := numerator, raw;
    var q := -n / d;
    DivisionBounds(-n, d);
    Wrap32Exact(-q);
    assert ScaledRpm(0, numerator, raw) == -q;
    assert (-q - 1) * d == -((q + 1) * d) && -q * d == -(q * d);
  }

  /** A slower count is a faster fan. */
  lemma QuotientAntitone(numerator: Int32, a: Int32, b: Int32)
    requires numerator > 0 && 0 < a <= b
    ensures ScaledRpm(0, numerator, b) <= ScaledRpm(0, numerator, a)
  {
    var p, q := ScaledRpm(0, numerator, a), ScaledRpm(0, numerator, b);
    QuotientBounds(numerator, a);
    QuotientBounds(numerator, b);
    if q > p {
      MulMono(p + 1, q, a);
      MulMono(a, b, q);
      assert false;
    }
  }

  lemma MulMono(x: int, y: int, z: int)
    requires x <= y && z >= 0
    ensures x * z <= y * z
  {
  }

  // ----- one poll of one fan -----

  function FruDirection(hw: Hw, detect: BitOp, f2b: int): Direction {
    match hw(detect)
    case ReadFails => F2B
    case Value(value) => if (value != 0) == (f2b != 0) then F2B else B2F
  }

  function FanDirection(yaml: Yaml, hw: Hw, subsystem: string, fan: YamlFan): Direction {
    var fru := Owner(Frus(yaml, subsystem), fan);
    if fru.None? || fru.value.directionDetect.None? || !yaml(subsystem).Loaded? then F2B
    else FruDirection(hw, fru.value.directionDetect.value, yaml(subsystem).info.directionF2b)
  }

  predicate FruPresent(hw: Hw, fru: YamlFanFru) {
    match fru.present
    case None => true
    case Some(op) => hw(op).Value? && hw(op).value != 0
  }

  function FaultStatus(hw: Hw, fan: YamlFan): nat {
    match hw(fan.fault)
    case ReadFails => UNINITIALIZED
    case Value(value) => if value != 0 then FAULT else OK
  }

  datatype Sample = Sample(direction: string, rpm: Int32, status: nat)

  /** What a poll records for a fan; an absent FRU counts as a fault at zero speed. */
  function Poll(yaml: Yaml, hw: Hw, subsystem: string, fan: YamlFan, multiplier: Int32, numerator: Int32): Sample {
    var direction := PrintDirection(FanDirection(yaml, hw, subsystem, fan));
    var fru := Owner(Frus(yaml, subsystem), fan);
    if fru.None? || !FruPresent(hw, fru.value) then Sample(direction, 0, FAULT)
    else Sample(direction, ScaledRpm(multiplier, numerator, RawCount(hw, fan)), FaultStatus(hw, fan))
  }

  /** The status a poll records for a described fan, case by case from the registers. */
  lemma PollStatusExactly(yaml: Yaml, hw: Hw, subsystem: string, fan: YamlFan, multiplier: Int32, numerator: Int32)
    requires fan in AllFans(Frus(yaml, subsystem))
    ensures var fru := Owner(Frus(yaml, subsystem), fan);
            var status := Poll(yaml, hw, subsystem, fan, multiplier, numerator).status;
            && fru.Some? && fan in fru.value.fans
            && var present := fru.value.present == None || (hw(fru.value.present.value).Value? && hw(fru.value.present.value).value != 0);
               && (status == FAULT <==> !present || (hw(fan.fault).Value? && hw(fan.fault).value != 0))
               && (status == OK <==> present && hw(fan.fault) == Value(0))
               && (status == UNINITIALIZED <==> present && hw(fan.fault).ReadFails?)
  {
    OwnerExact(Frus(yaml, subsystem), fan);
  }

  /** The speed that a poll records, from the registers, the multiplier and the numerator. */
  lemma PollRpmExactly(yaml: Yaml, hw: Hw, subsystem: string, fan: YamlFan, multiplier: Int32, numerator: Int32)
    requires fan in AllFans(Frus(yaml, subsystem))
    ensures var fru := Owner(Frus(yaml, subsystem), fan);
            var rpm := Poll(yaml, hw, subsystem, fan, multiplier, numerator).rpm;
            var low := hw(fan.speedLsb);
            var high := if fan.speedMsb.Some? then hw(fan.speedMsb.value) else Value(0);
            && fru.Some?
            && var present := fru.value.present == None || (hw(fru.value.present.value).Value? && hw(fru.value.present.value).value != 0);
               if !present || low.ReadFails? || high.ReadFails? then rpm == 0
               else if low.value < 256 && high.value < 256 then
                 var count := low.value + 256 * high.value;
                 if multiplier != 0 then
                   (rpm - count * multiplier) % 0x1_0000_0000 == 0 && (-32768 <= multiplier <= 32768 ==> rpm == count * multiplier)
                 else if numerator == 0 then rpm == count
                 else if count == 0 then rpm == 0
                 else if numerator > 0 then rpm * count <= numerator < (rpm + 1) * count
                 else (rpm - 1) * count < numerator <= rpm * count
               else true
  {
    hide Poll, RawCount, ScaledRpm;
    PollIsScaled(yaml, hw, subsystem, fan, multiplier, numerator);
    CountExactly(hw, fan);
    if 0 <= RawCount(hw, fan) < 0x1_0000 {
      ScaledExactly(multiplier, numerator, RawCount(hw, fan));
    }
  }

  lemma PollIsScaled(yaml: Yaml, hw: Hw, subsystem: string, fan: YamlFan, multiplier: Int32, numerator: Int32)
    requires fan in AllFans(Frus(yaml, subsystem))
    ensures var fru := Owner(Frus(yaml, subsystem), fan);
            && fru.Some?
            && var present := fru.value.present == None || (hw(fru.value.present.value).Value? && hw(fru.value.present.value).value != 0);
               Poll(yaml, hw, subsystem, fan, multiplier, numerator).rpm ==
               if present then ScaledRpm(multiplier, numerator, RawCount(hw, fan)) else 0
  {
    OwnerExact(Frus(yaml, subsystem), fan);
  }

  lemma CountExactly(hw: Hw, fan: YamlFan)
    ensures var low := hw(fan.speedLsb);
            var high := if fan.speedMsb.Some? then hw(fan.speedMsb.value) else Value(0);
            && (low.ReadFails? || high.ReadFails? ==> RawCount(hw, fan) == 0)
            && (low.Value? && high.Value? && low.value < 256 && high.value < 256 ==> RawCount(hw, fan) == low.value + 256 * high.value)
  {
  }

  lemma ScaledExactly(multiplier: Int32, numerator: Int32, count: Int32)
    requires 0 <= count < 0x1_0000
    ensures var rpm := ScaledRpm(multiplier, numerator, count);
            && (count == 0 ==> rpm == 0)
            && if multiplier != 0 then
                 (rpm - count * multiplier) % 0x1_0000_0000 == 0 && (-32768 <= multiplier <= 32768 ==> rpm == count * multiplier)
               else if numerator == 0 then rpm == count
               else if count == 0 then rpm == 0
               else if numerator > 0 then rpm * count <= numerator < (rpm + 1) * count
               else (rpm - 1) * count < numerator <= rpm * count
  {
    if multiplier != 0 {
      Wrap32Modulo(count * multiplier);
      Wrap32Exact(count * multiplier);
      if -32768 <= multiplier <= 32768 {
        ProductBounds(count, multiplier);
      }
    } else if numerator > 0 {
      QuotientBounds(numerator, count);
    } else if numerator < 0 && count > 0 {
      NegativeQuotientBounds(numerator, count);
    }
  }

  /** The direction that a poll records: front to back, unless the detection register says otherwise. */
  lemma PollDirectionExactly(yaml: Yaml, hw: Hw, subsystem: string, fan: YamlFan, multiplier: Int32, numerator: Int32)
    requires fan in AllFans(Frus(yaml, subsystem))
    ensures var fru := Owner(Frus(yaml, subsystem), fan);
            var direction := Poll(yaml, hw, subsystem, fan, multiplier, numerator).direction;
            && fru.Some? && yaml(subsystem).Loaded?
            && direction == if && fru.value.directionDetect.Some? && hw(fru.value.directionDetect.value).Value?
                               && ((hw(fru.value.directionDetect.value).value == 0) == (yaml(subsystem).info.directionF2b != 0))
                            then "b2f" else "f2b"
  {
    OwnerExact(Frus(yaml, subsystem), fan);
  }

  /** Fans of one FRU always report the same direction, and if the FRU is absent they all
      report a fault at zero speed. */
  lemma FruMatesAgree(yaml: Yaml, hw: Hw, subsystem: string, i: nat, a: YamlFan, b: YamlFan, multiplier: Int32, numerator: Int32)
    requires i < |Frus(yaml, subsystem)|
    requires a in Frus(yaml, subsystem)[i].fans && b in Frus(yaml, subsystem)[i].fans
    requires forall j :: 0 <= j < |Frus(yaml, subsystem)| && j != i ==>
                           a !in Frus(yaml, subsystem)[j].fans && b !in Frus(yaml, subsystem)[j].fans
    ensures Poll(yaml, hw, subsystem, a, multiplier, numerator).direction ==
            Poll(yaml, hw, subsystem, b, multiplier, numerator).direction
    ensures !FruPresent(hw, Frus(yaml, subsystem)[i]) ==>
              Poll(yaml, hw, subsystem, a, multiplier, numerator) == Poll(yaml, hw, subsystem, b, multiplier, numerator)
  {
    OwnerExact(Frus(yaml, subsystem), a);
    OwnerExact(Frus(yaml, subsystem), b);
  }
}
