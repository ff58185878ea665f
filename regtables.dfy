/** The pseudo-register tables of emit-rtl.c: regno_pointer_flag,
    regno_pointer_align and regno_reg_rtx, all regno_pointer_flag_length
    long, and reg_rtx_no, the next pseudo register number. gen_reg_rtx
    hands out consecutive numbers and doubles the tables when they fill up. */
module RegTables {
  import opened Rtl

  /** The tables doubled: the old entries copied, the new half `zero`. */
  method Doubled<T>(a: array<T>, zero: T) returns (b: array<T>)
    ensures fresh(b) && b.Length == 2 * a.Length
    ensures b[..a.Length] == a[..] && forall i | a.Length <= i < b.Length :: b[i] == zero
  {
    b := new T[2 * a.Length](_ => zero);
    var i := 0;
    while i < a.Length
      invariant 0 <= i <= a.Length
      invariant forall k | 0 <= k < i :: b[k] == a[k]
      invariant forall k | a.Length <= k < b.Length :: b[k] == zero
    {
      b[i] := a[i];
      i := i + 1;
    }
    assert b[..a.Length] == a[..] by {
      assert forall k | 0 <= k < a.Length :: b[..a.Length][k] == a[..][k];
    }
  }

  /** A complex mode: gen_reg_rtx makes two pseudos of its part mode. */
  predicate IsComplex(m: Mode)
  {
    m.cls == ComplexIntClass || m.cls == ComplexFloatClass
  }

  /** The mode of each half of a complex mode: GET_MODE_UNIT_SIZE bytes
      of the matching scalar class. */
  function PartMode(m: Mode): (r: Mode)
    requires IsComplex(m)
    ensures !IsComplex(r) && r.size == m.size / 2
  {
    Mode(if m.cls == ComplexFloatClass then FloatClass else IntClass, m.size / 2)
  }

  class RegTables {
    /** regno_pointer_flag and regno_pointer_align */
    var pointerFlag: array<nat>
    var pointerAlign: array<nat>
    /** regno_reg_rtx; None is a null entry */
    var regRtx: array<Option<Rtx>>
    /** regno_pointer_flag_length */
    var length: nat
    /** reg_rtx_no */
    var regRtxNo: nat

    ghost predicate Valid()
      reads this
    {
      pointerFlag.Length == length && pointerAlign.Length == length && regRtx.Length == length &&
      pointerFlag != pointerAlign && 0 < length && regRtxNo <= length
    }

    /** The REG of every pseudo handed out so far, by number. */
    ghost function Regs(): seq<Option<Rtx>>
      requires Valid()
      reads this, regRtx
    {
      regRtx[..regRtxNo]
    }

    /** The pointer tables hold `flag` and `align` at their front and 0
        after them. */
    ghost predicate PointersFrom(flag: seq<nat>, align: seq<nat>)
      requires Valid()
      reads this, pointerFlag, pointerAlign
    {
      |flag| == |align| <= length &&
      pointerFlag[..|flag|] == flag && pointerAlign[..|align|] == align &&
      forall i | |flag| <= i < length :: pointerFlag[i] == 0 && pointerAlign[i] == 0
    }

    /** max_reg_num */
    function MaxRegNum(): nat
      reads this
    {
      regRtxNo
    }

    /** The table part of init_emit: reg_rtx_no starts past the virtual
        registers and the tables have room for 100 more, all zero. */
    constructor (lastVirtualRegister: nat)
      ensures Valid() && regRtxNo == lastVirtualRegister + 1 && length == lastVirtualRegister + 101
      ensures pointerFlag[..] == seq(length, _ => 0) && pointerAlign[..] == seq(length, _ => 0)
      ensures regRtx[..] == seq(length, _ => None)
    {
      var n := lastVirtualRegister + 101;
      pointerFlag := new nat[n](_ => 0);
      pointerAlign := new nat[n](_ => 0);
      regRtx := new Option<Rtx>[n](_ => None);
      length := n;
      regRtxNo := lastVirtualRegister + 1;
    }

    /** The three tables doubled when reg_rtx_no reaches their length. */
    method Grow()
      requires Valid() && regRtxNo == length
      modifies this
      ensures Valid() && length == 2 * old(length) && regRtxNo == old(regRtxNo)
      ensures fresh(pointerFlag) && fresh(pointerAlign) && fresh(regRtx)
      ensures pointerFlag[..old(length)] == old(pointerFlag[..]) && pointerAlign[..old(length)] == old(pointerAlign[..])
      ensures regRtx[..old(length)] == old(regRtx[..])
      ensures forall i | old(length) <= i < length :: pointerFlag[i] == 0 && pointerAlign[i] == 0 && regRtx[i] == None
    {
      pointerFlag := Doubled(pointerFlag, 0);
      pointerAlign := Doubled(pointerAlign, 0);
      regRtx := Doubled(regRtx, None);
      length := length * 2;
    }

    /** gen_reg_rtx. `reloadStarted` is reload_in_progress ||
        reload_completed, when new registers are refused. */
    method GenRegRtx(mode: Mode, reloadStarted: bool) returns (r: Result<Rtx>)
      requires Valid()
      modifies this, regRtx
      ensures Valid()
      ensures reloadStarted ==> r == Abort && regRtxNo == old(regRtxNo) && regRtx == old(regRtx) && length == old(length)
      ensures !reloadStarted && !IsComplex(mode) ==>
        r == Ok(Reg(mode, old(regRtxNo))) && regRtxNo == old(regRtxNo) + 1 &&
        Regs() == old(Regs()) + [Some(Reg(mode, old(regRtxNo)))]
      ensures !reloadStarted && IsComplex(mode) ==>
        var n, pm := old(regRtxNo), PartMode(mode);
        r == Ok(Concat(mode, Reg(pm, n), Reg(pm, n + 1))) && regRtxNo == n + 2 &&
        Regs() == old(Regs()) + [Some(Reg(pm, n)), Some(Reg(pm, n + 1))]
      ensures old(length) <= length && (regRtx == old(regRtx) || fresh(regRtx))
      ensures PointersFrom(old(pointerFlag[..]), old(pointerAlign[..]))
      decreases if IsComplex(mode) then 1 else 0
    {
      if reloadStarted {
        return Abort;
      }
      if IsComplex(mode) {
        var pm := PartMode(mode);
        var realPart := GenRegRtx(pm, false);
        var imagPart := GenRegRtx(pm, false);
        return Ok(Concat(mode, realPart.value, imagPart.value));
      }
      var val := NewPseudo(mode);
      return Ok(val);
    }

    /** The tail of gen_reg_rtx for a mode that is not complex: the tables
        grow when full, and the REG numbered reg_rtx_no is recorded. */
    method NewPseudo(mode: Mode) returns (val: Rtx)
      requires Valid()
      modifies this, regRtx
      ensures Valid() && val == Reg(mode, old(regRtxNo)) && regRtxNo == old(regRtxNo) + 1
      ensures Regs() == old(Regs()) + [Some(val)]
      ensures old(length) <= length && (regRtx == old(regRtx) || fresh(regRtx))
      ensures PointersFrom(old(pointerFlag[..]), old(pointerAlign[..]))
    {
      if regRtxNo == length {
        Grow();
      }
      val := Reg(mode, regRtxNo);
      regRtx[regRtxNo] := Some(val);
      regRtxNo := regRtxNo + 1;
      assert Regs() == old(Regs()) + [Some(val)];
    }
  }
}
