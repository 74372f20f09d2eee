/** Bursts of bit errors, and the shortest damage that the checksum cannot see. */
module CrcBurst {
  import opened Bytes
  import opened Crc

  ghost predicate InFrame(frame: seq<byte>, flips: seq<nat>) {
    forall k :: 0 <= k < |flips| ==> flips[k] < 8 * |frame|
  }

  // The polynomial of a set of flips, seen from the bit that is `end` places from the start.
  function Pattern(end: nat, flips: seq<nat>): bv8
    requires forall k :: 0 <= k < |flips| ==> flips[k] <= end
  {
    if flips == [] then 0
    else Plus(Pattern(end, flips[..|flips| - 1]), Shifts(end - flips[|flips| - 1], 1))
  }

  /** Every set of flips adds its own polynomial to the register. */
  lemma {:induction false} FlipsRegister(frame: seq<byte>, flips: seq<nat>, end: nat)
    requires InFrame(frame, flips) && end <= 8 * |frame| + 7 && forall k :: 0 <= k < |flips| ==> flips[k] <= end
    ensures Register(FlipBits(frame, flips))
         == Plus(Register(frame), Shifts(8 * |frame| + 7 - end, Pattern(end, flips)))
    decreases |flips|
  {
    hide Plus, Shifts, Register, FlipBit;
    var n := 8 * |frame| + 7 - end;
    if flips == [] {
      ShiftsZero(n);
      PlusZero(Register(frame), 0);
    } else {
      var init, i := flips[..|flips| - 1], flips[|flips| - 1];
      FlipsRegister(frame, init, end);
      FlipRegister(FlipBits(frame, init), i);
      ShiftsAdd(n, end - i, 1);
      ShiftsLinear(n, Pattern(end, init), Shifts(end - i, 1));
      PlusLaws(Register(frame), Shifts(n, Pattern(end, init)), Shifts(n, Shifts(end - i, 1)));
    }
  }

  /** Flips go unnoticed exactly when their polynomial is a multiple of the generator. */
  lemma FlipsMissedIff(frame: seq<byte>, flips: seq<nat>, end: nat)
    requires Codeword(frame) && InFrame(frame, flips)
    requires end <= 8 * |frame| + 7 && forall k :: 0 <= k < |flips| ==> flips[k] <= end
    ensures Codeword(FlipBits(frame, flips)) <==> Pattern(end, flips) == 0
  {
    hide Codeword, Pattern, FlipBits, Register;
    NotEmpty(frame);
    CodewordIffZero(frame);
    CodewordIffZero(FlipBits(frame, flips));
    FlipsRegister(frame, flips, end);
    AddsNothingIff(8 * |frame| + 7 - end, Pattern(end, flips));
  }

  lemma NotEmpty(frame: seq<byte>)
    requires Codeword(frame)
    ensures |frame| > 0
  {
    hide Crc8;
  }

  lemma AddsNothingIff(n: nat, p: bv8)
    ensures Plus(0, Shifts(n, p)) == 0 <==> p == 0
  {
    hide Plus, Shifts;
    PlusZero(Shifts(n, p), 0);
    ShiftsZero(n);
    if Shifts(n, p) == 0 {
      ShiftsInjective(n, p, 0);
    }
  }

  // ---- Bursts ----

  // Different places, all within eight consecutive bits.
  ghost predicate Burst(flips: seq<nat>) {
    && flips != []
    && (forall i, j :: 0 <= i < j < |flips| ==> flips[i] < flips[j])
    && flips[|flips| - 1] < flips[0] + 8
  }

  // The bits of a register from place r on, the highest being place 0.
  function From(r: nat): bv8 {
    if r == 0 then 0xFF else if r == 1 then 0x7F else if r == 2 then 0x3F else if r == 3 then 0x1F
    else if r == 4 then 0x0F else if r == 5 then 0x07 else if r == 6 then 0x03 else if r == 7 then 0x01 else 0
  }

  predicate Clear(e: bv8, r: nat) {
    e & From(r) == 0
  }

  lemma ClearNext(e: bv8, r: nat)
    requires Clear(e, r)
    ensures Clear(e, r + 1)
  {
  }

  lemma {:induction false} ClearLater(e: bv8, r: nat, s: nat)
    requires Clear(e, r) && r <= s
    ensures Clear(e, s)
    decreases s
  {
    hide Clear;
    if r < s {
      ClearLater(e, r, s - 1);
      ClearNext(e, s - 1);
    }
  }

  // One more flip, lower than all before it.
  lemma AddLower(e: bv8, r: nat)
    requires Clear(e, r) && r < 8
    ensures var f := Plus(e, Poly(Mask(r))); f != 0 && Clear(f, r + 1)
  {
  }

  lemma {:induction false} BurstPattern(start: nat, flips: seq<nat>)
    requires flips != [] && forall k :: 0 <= k < |flips| ==> start <= flips[k] <= start + 7
    requires forall i, j :: 0 <= i < j < |flips| ==> flips[i] < flips[j]
    ensures var e := Pattern(start + 7, flips); e != 0 && Clear(e, flips[|flips| - 1] - start + 1)
    decreases |flips|
  {
    hide Plus, Shifts, Clear, Poly;
    var init, r := flips[..|flips| - 1], flips[|flips| - 1] - start;
    var e := Pattern(start + 7, init);
    if init == [] {
      assert Clear(0, r) by { ZeroClear(r); }
    } else {
      BurstPattern(start, init);
      ClearLater(e, init[|init| - 1] - start + 1, r);
    }
    AddLower(e, r);
    MaskIsPower(r);
  }

  lemma ZeroClear(r: nat)
    ensures Clear(0, r)
  {
  }

  /** Every burst of at most eight bits, also across byte boundaries, is noticed in a frame of any
      length. */
  lemma BurstDetected(frame: seq<byte>, flips: seq<nat>)
    requires Codeword(frame) && InFrame(frame, flips) && Burst(flips)
    ensures !Codeword(FlipBits(frame, flips))
  {
    hide Codeword, FlipBits, Pattern;
    BurstPattern(flips[0], flips);
    FlipsMissedIff(frame, flips, flips[0] + 7);
  }

  // ---- Where detection ends ----

  // The places of the coefficients of the generator, from place p on.
  function GeneratorAt(p: nat): seq<nat> {
    [p, p + 6, p + 7, p + 8]
  }

  lemma GeneratorVanishes(p: nat)
    ensures Pattern(p + 8, GeneratorAt(p)) == 0
  {
    var flips := GeneratorAt(p);
    assert flips[..3] == [p, p + 6, p + 7] && flips[..3][..2] == [p, p + 6] && flips[..3][..2][..1] == [p];
    assert [p][..0] == [];
    assert Shifts(8, 1) == 0x07 && Shifts(2, 1) == 0x04 && Shifts(1, 1) == 0x02 && Shifts(0, 1) == 0x01;
    assert Pattern(p + 8, [p]) == 0x07;
    assert Pattern(p + 8, [p, p + 6]) == 0x03;
    assert Pattern(p + 8, [p, p + 6, p + 7]) == 0x01;
  }

  /** Three flips and eight consecutive bits are the limits: in every frame, at every place, the four
      flips of the generator, nine bits wide, go unnoticed. */
  lemma FourFlipsMissed(frame: seq<byte>, p: nat)
    requires Codeword(frame) && p + 8 < 8 * |frame|
    ensures Codeword(FlipBits(frame, GeneratorAt(p)))
  {
    hide Codeword, FlipBits, Pattern;
    GeneratorVanishes(p);
    FlipsMissedIff(frame, GeneratorAt(p), p + 8);
  }
}
