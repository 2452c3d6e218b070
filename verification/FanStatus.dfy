/** Fan health and air flow, and the strings that the database stores for them. */
module FanStatus {

  const UNINITIALIZED := 0
  const OK := 1
  const FAULT := 2

  const STATUS_STRINGS: seq<string> := ["uninitialized", "ok", "fault"]

  /** A cached status is any unsigned value until the first poll. */
  function PrintStatus(status: nat): string {
    if status < |STATUS_STRINGS| then STATUS_STRINGS[status] else STATUS_STRINGS[UNINITIALIZED]
  }

  /** Comparing printed values is comparing values, exactly up to the out-of-range ones. */
  lemma PrintStatusInjective(a: nat, b: nat)
    ensures PrintStatus(a) == PrintStatus(b) <==>
            (if a <= FAULT then a else UNINITIALIZED) == (if b <= FAULT then b else UNINITIALIZED)
  {
    assert STATUS_STRINGS[0][0] == 'u' && STATUS_STRINGS[1][0] == 'o' && STATUS_STRINGS[2][0] == 'f';
  }

  datatype Direction = F2B | B2F

  function PrintDirection(direction: Direction): string {
    if direction.F2B? then "f2b" else "b2f"
  }
}
