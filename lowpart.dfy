/** The low-part helpers of emit-rtl.c that need no register tables:
    subreg_lowpart_p, the word offset gen_lowpart_common gives a low part,
    and the CONST_INT path of gen_lowpart_common, which sign-extends the
    constant from the width of the narrower mode. WORDS_BIG_ENDIAN,
    UNITS_PER_WORD and HOST_BITS_PER_WIDE_INT are target and host
    parameters. */
module Lowpart {
  import opened Rtl

  /** C's `/` on int, which truncates toward zero. */
  function TruncDiv(a: int, b: nat): (r: int)
    requires b > 0
    ensures a >= 0 ==> r == a / b
    ensures a < 0 ==> r == -((-a) / b)
  {
    if a >= 0 then a / b else -((-a) / b)
  }

  function Max(a: int, b: int): int { if a >= b then a else b }

  /** The word of a value of mode `xm` that holds its low part in mode
      `m`: the last words on a big-endian target whose value spans more
      than one word, word 0 otherwise. */
  function LowpartWord(m: Mode, xm: Mode, wordsBigEndian: bool, unitsPerWord: nat): (r: int)
    requires unitsPerWord > 0
    ensures !wordsBigEndian || xm.size <= unitsPerWord ==> r == 0
    ensures wordsBigEndian && xm.size > unitsPerWord && m.size <= xm.size ==> 0 <= r && r * unitsPerWord <= xm.size - unitsPerWord
  {
    if wordsBigEndian && xm.size > unitsPerWord then
      var a := xm.size - Max(m.size, unitsPerWord);
      DivTimesBelow(a, unitsPerWord);
      TruncDiv(a, unitsPerWord)
    else 0
  }

  /** The quotient of a non-negative value, multiplied back, does not
      exceed it. */
  lemma DivTimesBelow(a: int, b: nat)
    requires b > 0
    ensures a >= 0 ==> 0 <= a / b && (a / b) * b <= a
  {
    if a >= 0 {
      assert a == (a / b) * b + a % b;
    }
  }

  /** subreg_lowpart_p: whether a SUBREG names the least significant part
      of its register; anything that is not a SUBREG is its own low part,
      and a SUBREG of a VOIDmode value is not a low part. */
  predicate SubregLowpart(x: Rtx, wordsBigEndian: bool, unitsPerWord: nat)
    requires unitsPerWord > 0
  {
    if !x.Subreg? then true
    else if ModeOf(x.inner) == VoidMode then false
    else x.word == LowpartWord(x.mode, ModeOf(x.inner), wordsBigEndian, unitsPerWord)
  }

  /** On a little-endian target, and for values of at most one word, a
      SUBREG is the low part exactly when it starts at word 0. */
  lemma SubregLowpartWordZero(m: Mode, inner: Rtx, w: nat, wordsBigEndian: bool, unitsPerWord: nat)
    requires unitsPerWord > 0 && ModeOf(inner) != VoidMode
    requires !wordsBigEndian || ModeOf(inner).size <= unitsPerWord
    ensures SubregLowpart(Subreg(m, inner, w), wordsBigEndian, unitsPerWord) <==> w == 0
  {
  }

  /** The SUBREG gen_lowpart_common builds around a pseudo register (word
      LowpartWord of the two modes) is one subreg_lowpart_p recognises,
      and no other word of that register is. */
  lemma LowpartSubregIsLowpart(m: Mode, x: Rtx, w: nat, wordsBigEndian: bool, unitsPerWord: nat)
    requires unitsPerWord > 0 && x.Reg? && m.size <= x.mode.size && x.mode != VoidMode
    ensures LowpartWord(m, x.mode, wordsBigEndian, unitsPerWord) >= 0
    ensures SubregLowpart(Subreg(m, x, w), wordsBigEndian, unitsPerWord) <==>
      w == LowpartWord(m, x.mode, wordsBigEndian, unitsPerWord)
  {
  }

  // ---------------------------------------------------------------- the CONST_INT path

  function Pow2(n: nat): (r: int)
    ensures r > 0
  {
    if n == 0 then 1 else 2 * Pow2(n - 1)
  }

  /** `val << (HOST_BITS_PER_WIDE_INT - width) >> (HOST_BITS_PER_WIDE_INT
      - width)` on a two's-complement host: the low `width` bits of `v`
      read as a signed number. */
  function SignExtend(v: int, width: nat): int
    requires width > 0
  {
    var low := v % Pow2(width);
    if low >= Pow2(width - 1) then low - Pow2(width) else low
  }

  /** The sign-extended value lies in the signed range of `width` bits
      and agrees with `v` in its low `width` bits. */
  lemma SignExtendRange(v: int, width: nat)
    requires width > 0
    ensures var r := SignExtend(v, width);
      -Pow2(width - 1) <= r < Pow2(width - 1) && r % Pow2(width) == v % Pow2(width)
  {
    WrapRange(v, Pow2(width), Pow2(width - 1));
  }

  /** SignExtendRange for a modulus `m` of half `h`. */
  lemma WrapRange(v: int, m: int, h: int)
    requires h > 0 && m == 2 * h
    ensures var low := v % m; var r := if low >= h then low - m else low;
      -h <= r < h && r % m == v % m
  {
    var low := v % m;
    ModSmall(low, m);
    if low >= h {
      ModShift(low, m);
    }
  }

  lemma ModSmall(low: int, m: int)
    requires 0 <= low < m
    ensures low % m == low
  {
  }

  lemma ModShift(low: int, m: int)
    requires 0 <= low < m
    ensures (low - m) % m == low
  {
  }

  /** A value already in the signed range of `width` bits is its own sign
      extension; so sign extension is idempotent. */
  lemma SignExtendFixes(v: int, width: nat)
    requires width > 0 && -Pow2(width - 1) <= v < Pow2(width - 1)
    ensures SignExtend(v, width) == v
  {
    WrapFixes(v, Pow2(width), Pow2(width - 1));
  }

  /** SignExtendFixes for a modulus `m` of half `h`. */
  lemma WrapFixes(v: int, m: int, h: int)
    requires h > 0 && m == 2 * h && -h <= v < h
    ensures var low := v % m; (if low >= h then low - m else low) == v
  {
    if v >= 0 {
      ModSmall(v, m);
    } else {
      ModShift(v + m, m);
    }
  }

  lemma SignExtendIdempotent(v: int, width: nat)
    requires width > 0
    ensures SignExtend(SignExtend(v, width), width) == SignExtend(v, width)
  {
    SignExtendRange(v, width);
    SignExtendFixes(SignExtend(v, width), width);
  }

  /** What gen_lowpart_common makes of CONST_INT `v` in an integer mode of
      `bits` bits: `v` itself from twice the host word up, nothing (0)
      between one and two host words, `v` for exactly one host word, and
      the sign-extended low bits for a narrower mode. */
  function LowpartConstInt(v: int, bits: nat, hostBits: nat): (r: Option<int>)
    requires 0 < bits && 0 < hostBits
  {
    if bits >= 2 * hostBits then Some(v)
    else if bits > hostBits then None
    else if bits == hostBits then Some(v)
    else Some(SignExtend(v, bits))
  }

  /** The low part of a constant in a mode narrower than the host word is
      a value of that mode with the same low bits, and a constant that
      already fits comes back unchanged (gen_lowpart_common returns X
      itself then). */
  lemma LowpartConstIntNarrow(v: int, bits: nat, hostBits: nat)
    requires 0 < bits < hostBits
    ensures LowpartConstInt(v, bits, hostBits).Some?
    ensures var r := LowpartConstInt(v, bits, hostBits).value;
      -Pow2(bits - 1) <= r < Pow2(bits - 1) && r % Pow2(bits) == v % Pow2(bits)
    ensures -Pow2(bits - 1) <= v < Pow2(bits - 1) ==> LowpartConstInt(v, bits, hostBits) == Some(v)
  {
    SignExtendRange(v, bits);
    if -Pow2(bits - 1) <= v < Pow2(bits - 1) {
      SignExtendFixes(v, bits);
    }
  }

  /** Only modes wider than one host word but narrower than two give no
      low part. */
  lemma LowpartConstIntNone(v: int, bits: nat, hostBits: nat)
    requires 0 < bits && 0 < hostBits
    ensures LowpartConstInt(v, bits, hostBits).None? <==> hostBits < bits < 2 * hostBits
  {
  }
}
