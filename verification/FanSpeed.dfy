/** Speed levels, their strings, the sensor maximum and the arbitration with the override. */
module FanSpeed {
  import opened Platform

  const NONE := -1
  const SLOW := 0
  const NORMAL := 1
  const MEDIUM := 2
  const FAST := 3
  const MAX := 4

  type Speed = x: int | NONE <= x <= MAX

  const SPEED_STRINGS: seq<string> := ["slow", "normal", "medium", "fast", "max"]

  /** Index of the first occurrence of `name`, or -1. */
  function FirstIndex(table: seq<string>, name: string): (r: int)
    ensures -1 <= r < |table|
    ensures r >= 0 ==> table[r] == name && name !in table[..r]
    ensures r < 0 ==> name !in table
  {
    if |table| == 0 then -1
    else if table[0] == name then 0
    else
      var r := FirstIndex(table[1..], name);
      if r < 0 then -1 else r + 1
  }

  function ParseSpeed(name: Option<string>): Speed {
    if name.None? then NONE else FirstIndex(SPEED_STRINGS, name.value)
  }

  function PrintSpeed(speed: int): string {
    if 0 <= speed < |SPEED_STRINGS| then SPEED_STRINGS[speed] else SPEED_STRINGS[NORMAL]
  }

  method StringToEnum(name: Option<string>) returns (r: Speed)
    ensures name.None? ==> r == NONE
    ensures name.Some? && name.value !in SPEED_STRINGS ==> r == NONE
    ensures name.Some? && name.value in SPEED_STRINGS ==> r != NONE && SPEED_STRINGS[r] == name.value
    ensures r == ParseSpeed(name)
  {
    if name.None? {
      return NONE;
    }
    var i := 0;
    while i < |SPEED_STRINGS|
      invariant 0 <= i <= |SPEED_STRINGS|
      invariant forall j :: 0 <= j < i ==> SPEED_STRINGS[j] != name.value
    {
      if SPEED_STRINGS[i] == name.value {
        SpeedStringsDistinct(i, FirstIndex(SPEED_STRINGS, name.value));
        return i;
      }
      i := i + 1;
    }
    return NONE;
  }

  lemma SpeedStringsDistinct(i: int, j: int)
    requires 0 <= i < |SPEED_STRINGS| && 0 <= j < |SPEED_STRINGS|
    requires SPEED_STRINGS[i] == SPEED_STRINGS[j]
    ensures i == j
  {
    assert SPEED_STRINGS[0][0] == 's' && SPEED_STRINGS[1][0] == 'n';
    assert SPEED_STRINGS[2] == "medium" && SPEED_STRINGS[2][0] == 'm' && |SPEED_STRINGS[2]| == 6;
    assert SPEED_STRINGS[3][0] == 'f';
    assert SPEED_STRINGS[4] == "max" && SPEED_STRINGS[4][0] == 'm' && |SPEED_STRINGS[4]| == 3;
  }

  /** The five names, from the lowest level to the highest. */
  lemma LevelsOfNames()
    ensures ParseSpeed(Some("slow")) == 0 && ParseSpeed(Some("normal")) == 1 && ParseSpeed(Some("medium")) == 2
    ensures ParseSpeed(Some("fast")) == 3 && ParseSpeed(Some("max")) == 4
    ensures PrintSpeed(0) == "slow" && PrintSpeed(1) == "normal" && PrintSpeed(2) == "medium" && PrintSpeed(3) == "fast" && PrintSpeed(4) == "max"
    ensures forall name :: name !in ["slow", "normal", "medium", "fast", "max"] <==> ParseSpeed(Some(name)) == -1
  {
    assert SPEED_STRINGS == ["slow", "normal", "medium", "fast", "max"];
    forall i | 0 <= i < 5 ensures ParseSpeed(Some(SPEED_STRINGS[i])) == i {
      ParseAfterPrint(i);
    }
  }

  /** Printing and parsing back: values outside the table come back as NORMAL. */
  lemma ParseAfterPrint(speed: int)
    ensures ParseSpeed(Some(PrintSpeed(speed))) == if SLOW <= speed <= MAX then speed else NORMAL
  {
    var s := if SLOW <= speed <= MAX then speed else NORMAL;
    assert SPEED_STRINGS[s] in SPEED_STRINGS;
    SpeedStringsDistinct(s, FirstIndex(SPEED_STRINGS, SPEED_STRINGS[s]));
  }

  /** A string survives parsing and printing exactly when it is one of the five level names. */
  lemma PrintAfterParse(name: string)
    ensures PrintSpeed(ParseSpeed(Some(name))) == name <==> name in SPEED_STRINGS
  {
    assert SPEED_STRINGS[NORMAL] in SPEED_STRINGS;
  }

  // ----- sensors -----

  /** The highest level that any sensor asks for, never below SLOW. */
  function SensorMax(states: seq<string>): (r: Speed)
    ensures SLOW <= r
  {
    if |states| == 0 then SLOW
    else
      var rest := SensorMax(states[..|states| - 1]);
      var last := ParseSpeed(Some(states[|states| - 1]));
      if last > rest then last else rest
  }

  method HighestSensor(states: seq<string>) returns (highest: Speed)
    ensures highest == SensorMax(states)
  {
    highest := SLOW;
    for i := 0 to |states|
      invariant highest == SensorMax(states[..i])
    {
      assert states[..i + 1][..i] == states[..i];
      var speed := StringToEnum(Some(states[i]));
      if speed > highest {
        highest := speed;
      }
    }
    assert states[..|states|] == states;
  }

  /** The recorded speed is the least level at or above SLOW that no sensor exceeds. */
  lemma {:induction false} SensorMaxIsLeastUpperBound(states: seq<string>, bound: int)
    ensures SensorMax(states) <= bound <==>
            SLOW <= bound && forall i :: 0 <= i < |states| ==> ParseSpeed(Some(states[i])) <= bound
  {
    if |states| > 0 {
      var n := |states| - 1;
      SensorMaxIsLeastUpperBound(states[..n], bound);
      assert forall i :: 0 <= i < n ==> states[..n][i] == states[i];
      if SensorMax(states) <= bound {
        forall i | 0 <= i < |states| ensures ParseSpeed(Some(states[i])) <= bound {
          if i < n {
            assert ParseSpeed(Some(states[..n][i])) <= bound;
          }
        }
      }
    }
  }

  /** Every sensor that appears in `less` also appears in `more`. */
  lemma SensorMaxMonotone(less: seq<string>, more: seq<string>)
    requires forall s :: s in less ==> s in more
    ensures SensorMax(less) <= SensorMax(more)
  {
    SensorMaxIsLeastUpperBound(more, SensorMax(more));
    forall i | 0 <= i < |less| ensures ParseSpeed(Some(less[i])) <= SensorMax(more) {
      assert less[i] in more;
    }
    SensorMaxIsLeastUpperBound(less, SensorMax(more));
  }

  lemma SensorMaxOrderFree(a: seq<string>, b: seq<string>)
    requires multiset(a) == multiset(b)
    ensures SensorMax(a) == SensorMax(b)
  {
    assert forall s :: s in a <==> s in multiset(a);
    assert forall s :: s in b <==> s in multiset(b);
    SensorMaxMonotone(a, b);
    SensorMaxMonotone(b, a);
  }

  // ----- arbitration -----

  /** The override wins, unless it is absent or the sensors ask for MAX; no request at all means NORMAL. */
  function Arbitrate(override: Speed, sensor: Speed): Speed {
    var speed := if override == NONE || sensor == MAX then sensor else override;
    if speed == NONE then NORMAL else speed
  }

  /** Without "max" among the sensors, the highest named level decides. */
  lemma HighestByName(states: seq<string>)
    ensures "max" in states ==> PrintSpeed(SensorMax(states)) == "max"
    ensures "max" !in states && "fast" in states ==> PrintSpeed(SensorMax(states)) == "fast"
    ensures "max" !in states && "fast" !in states && "medium" in states ==> PrintSpeed(SensorMax(states)) == "medium"
    ensures "max" !in states && "fast" !in states && "medium" !in states && "normal" in states ==>
              PrintSpeed(SensorMax(states)) == "normal"
    ensures "max" !in states && "fast" !in states && "medium" !in states && "normal" !in states ==>
              PrintSpeed(SensorMax(states)) == "slow"
  {
    LevelsOfNames();
    LevelReached(states, "max", 4);
    LevelReached(states, "fast", 3);
    LevelReached(states, "medium", 2);
    LevelReached(states, "normal", 1);
  }

  /** The sensor maximum is at least this level exactly if some sensor says it or a higher one. */
  lemma LevelReached(states: seq<string>, name: string, level: int)
    requires 1 <= level <= 4 && PrintSpeed(level) == name
    ensures name in states ==> SensorMax(states) >= level
    ensures SensorMax(states) == level ==> name in states
  {
    ParseAfterPrint(level);
    SensorMaxIsLeastUpperBound(states, SensorMax(states));
    SensorMaxIsLeastUpperBound(states, level - 1);
    if name in states {
      var i :| 0 <= i < |states| && states[i] == name;
      assert ParseSpeed(Some(states[i])) <= SensorMax(states);
    }
    if SensorMax(states) == level {
      var i :| 0 <= i < |states| && ParseSpeed(Some(states[i])) > level - 1;
      assert ParseSpeed(Some(states[i])) == level;
      assert SPEED_STRINGS[level] == states[i];
    }
  }

  /** What a configured row asks for: bounded, monotone in its sensors, MAX in an emergency, and
      otherwise the override if it names a level, else the sensor maximum. */
  lemma ArbitrationIsSafe(override: Option<string>, states: seq<string>, extra: seq<string>)
    ensures SLOW <= Arbitrate(ParseSpeed(override), SensorMax(states)) <= MAX
    ensures "max" in states ==> Arbitrate(ParseSpeed(override), SensorMax(states)) == MAX
    ensures "max" !in states && override.Some? && override.value in SPEED_STRINGS ==>
              PrintSpeed(Arbitrate(ParseSpeed(override), SensorMax(states))) == override.value
    ensures override.None? || override.value !in SPEED_STRINGS ==>
              Arbitrate(ParseSpeed(override), SensorMax(states)) == SensorMax(states)
    ensures Arbitrate(ParseSpeed(override), SensorMax(states)) <=
            Arbitrate(ParseSpeed(override), SensorMax(states + extra))
  {
    SensorMaxMonotone(states, states + extra);
    LevelsOfNames();
    LevelReached(states, "max", 4);
    if override.Some? && override.value in SPEED_STRINGS {
      PrintAfterParse(override.value);
    }
  }
}
