/** The I2C bus as the log of register writes; a register holds the last value written to it. */
module Bus {
  import opened Platform

  datatype RegWrite = RegWrite(subsystem: string, op: BitOp, value: Byte)

  class I2cBus {
    var writes: seq<RegWrite>

    constructor ()
      ensures writes == []
    {
      writes := [];
    }

    method RegisterWrite(subsystem: string, op: BitOp, value: Byte)
      modifies this
      ensures writes == old(writes) + [RegWrite(subsystem, op, value)]
    {
      writes := writes + [RegWrite(subsystem, op, value)];
    }
  }

  /** What the register holds after these writes, if any of them reached it. */
  function Register(writes: seq<RegWrite>, op: BitOp): Option<Byte> {
    if |writes| == 0 then None
    else if writes[|writes| - 1].op == op then Some(writes[|writes| - 1].value)
    else Register(writes[..|writes| - 1], op)
  }

  lemma {:induction false} RegisterUntouched(before: seq<RegWrite>, more: seq<RegWrite>, op: BitOp)
    requires forall w :: w in more ==> w.op != op
    ensures Register(before + more, op) == Register(before, op)
  {
    if |more| == 0 {
      assert before + more == before;
    } else {
      var n := |more| - 1;
      assert (before + more)[..|before + more| - 1] == before + more[..n];
      assert (before + more)[|before + more| - 1] == more[n];
      RegisterUntouched(before, more[..n], op);
    }
  }

  lemma {:induction false} RegisterSet(before: seq<RegWrite>, more: seq<RegWrite>, op: BitOp, value: Byte)
    requires exists w :: w in more && w.op == op
    requires forall w :: w in more && w.op == op ==> w.value == value
    ensures Register(before + more, op) == Some(value)
  {
    var n := |more| - 1;
    assert (before + more)[..|before + more| - 1] == before + more[..n];
    assert (before + more)[|before + more| - 1] == more[n];
    if more[n].op != op {
      var w :| w in more && w.op == op;
      assert w in more[..n];
      RegisterSet(before, more[..n], op, value);
    }
  }
}
