/** The 8-bit CRC shared by the host (`crc8`) and the firmware (`_crc8_ccitt_update`):
    generator x^8 + x^2 + x + 1, initial value zero, no final inversion. The proofs read the
    register as a polynomial over GF(2): one shift is multiplication by x.
 */
module Crc {
  import opened Bytes

  // The polynomial whose coefficients are the bits of b.
  function Poly(b: byte): bv8 {
    b as bv8
  }

  // Addition of polynomials.
  function Plus(a: bv8, b: bv8): bv8 {
    a ^ b
  }

  // Multiplication by x modulo the generator.
  function Shift(c: bv8): bv8 {
    if c & 0x80 != 0 then (c << 1) ^ 0x07 else c << 1
  }

  function Shifts(n: nat, c: bv8): bv8 {
    if n == 0 then c else Shift(Shifts(n - 1, c))
  }

  // The register after feeding a whole message.
  function Register(data: seq<byte>): bv8 {
    if data == [] then 0
    else
      var last := |data| - 1;
      Shifts(8, Plus(Register(data[..last]), Poly(data[last])))
  }

  // One step of the running CRC.
  function Update(crc: byte, b: byte): byte {
    Shifts(8, Plus(Poly(crc), Poly(b))) as int
  }

  function Crc8(data: seq<byte>): byte {
    Register(data) as int
  }

  lemma Crc8Extend(data: seq<byte>, b: byte)
    ensures Crc8(data + [b]) == Update(Crc8(data), b)
  {
    hide Plus, Shift;
    assert (data + [b])[..|data|] == data;
  }

  /** The two nested loops of the host's `crc8`. */
  method ComputeCrc8(data: seq<byte>) returns (crc: byte)
    ensures crc == Crc8(data)
  {
    var c: bv8 := 0;
    for i := 0 to |data|
      invariant c == Register(data[..i])
    {
      ghost var before := c;
      c := c ^ (data[i] as bv8);
      for k := 0 to 8
        invariant c == Shifts(k, Plus(before, Poly(data[i])))
      {
        c := if c & 0x80 != 0 then (c << 1) ^ 0x07 else c << 1;
      }
      assert data[..i + 1][..i] == data[..i];
    }
    assert data[..|data|] == data;
    crc := c as int;
  }

  // ---- Algebra of the register ----

  lemma XorLaws(a: bv8, b: bv8, x: bv8, y: bv8)
    ensures (a ^ x) ^ b == (a ^ b) ^ x
    ensures a ^ (b ^ x) == (a ^ b) ^ x
    ensures (a ^ x) ^ (b ^ x) == a ^ b
    ensures (a ^ b) ^ (x ^ y) == (a ^ x) ^ (b ^ y)
    ensures a ^ b == 0 <==> a == b
    ensures a ^ 0 == a
  {
  }

  lemma XorShifts(a: bv8, b: bv8)
    ensures (a ^ b) << 1 == (a << 1) ^ (b << 1)
    ensures (a ^ b) & 0x80 != 0 <==> (a & 0x80 != 0) != (b & 0x80 != 0)
    ensures (a ^ b) ^ ((a ^ b) >> 4) == (a ^ (a >> 4)) ^ (b ^ (b >> 4))
    ensures (a ^ b) ^ ((a ^ b) >> 2) == (a ^ (a >> 2)) ^ (b ^ (b >> 2))
    ensures (a ^ b) ^ ((a ^ b) >> 1) == (a ^ (a >> 1)) ^ (b ^ (b >> 1))
    ensures (a ^ b) & 1 != 0 <==> (a & 1 != 0) != (b & 1 != 0)
  {
  }

  lemma PlusLaws(a: bv8, b: bv8, x: bv8)
    ensures Plus(Plus(a, x), b) == Plus(Plus(a, b), x)
    ensures Plus(a, Plus(b, x)) == Plus(Plus(a, b), x)
  {
    XorLaws(a, b, x, x);
  }

  lemma PlusFour(a: bv8, b: bv8, x: bv8, y: bv8)
    ensures Plus(Plus(a, b), Plus(x, y)) == Plus(Plus(a, x), Plus(b, y))
  {
    hide Plus;
    PlusLaws(Plus(a, b), x, y);
    PlusLaws(a, x, b);
    PlusLaws(Plus(a, x), b, y);
  }

  lemma PlusZero(a: bv8, b: bv8)
    ensures Plus(a, b) == 0 <==> a == b
    ensures Plus(0, a) == a == Plus(a, 0)
  {
    XorLaws(a, b, a, b);
  }

  lemma ShiftXor(a: bv8, b: bv8)
    ensures Shift(a ^ b) == Shift(a) ^ Shift(b)
  {
    XorShifts(a, b);
    XorLaws(a << 1, b << 1, 7, 7);
  }

  lemma ShiftLinear(a: bv8, b: bv8)
    ensures Shift(Plus(a, b)) == Plus(Shift(a), Shift(b))
  {
    hide Shift;
    ShiftXor(a, b);
  }

  lemma {:induction false} ShiftsLinear(n: nat, a: bv8, b: bv8)
    ensures Shifts(n, Plus(a, b)) == Plus(Shifts(n, a), Shifts(n, b))
  {
    hide Plus, Shift;
    if n > 0 {
      ShiftsLinear(n - 1, a, b);
      ShiftLinear(Shifts(n - 1, a), Shifts(n - 1, b));
    }
  }

  lemma ShiftInjective(a: bv8, b: bv8)
    requires Shift(a) == Shift(b)
    ensures a == b
  {
  }

  lemma {:induction false} ShiftsInjective(n: nat, a: bv8, b: bv8)
    requires Shifts(n, a) == Shifts(n, b)
    ensures a == b
  {
    hide Shift;
    if n > 0 {
      ShiftInjective(Shifts(n - 1, a), Shifts(n - 1, b));
      ShiftsInjective(n - 1, a, b);
    }
  }

  lemma {:induction false} ShiftsZero(n: nat)
    ensures Shifts(n, 0) == 0
  {
    if n > 0 {
      ShiftsZero(n - 1);
    }
  }

  lemma {:induction false} ShiftsAdd(m: nat, n: nat, c: bv8)
    ensures Shifts(m, Shifts(n, c)) == Shifts(m + n, c)
  {
    hide Shift;
    if m > 0 {
      ShiftsAdd(m - 1, n, c);
    }
  }

  // ---- Codewords ----

  ghost predicate Codeword(frame: seq<byte>) {
    |frame| > 0 && Crc8(frame[..|frame| - 1]) == frame[|frame| - 1]
  }

  lemma PolyRoundTrip(v: bv8)
    ensures Poly(v as int) == v
  {
  }

  lemma Successor(v: bv8)
    requires v != 0xFF
    ensures (v + 1) as int == v as int + 1
  {
  }

  // Every byte is the value of some bit vector, found by counting up.
  lemma {:induction false} ByteHasBits(b: byte) returns (v: bv8)
    ensures v as int == b
  {
    if b == 0 {
      v := 0;
    } else {
      v := ByteHasBits(b - 1);
      Successor(v);
      v := v + 1;
    }
  }

  lemma ByteRoundTrip(b: byte)
    ensures Poly(b) as int == b
  {
    hide Poly;
    var v := ByteHasBits(b);
    PolyRoundTrip(v);
  }

  // A message followed by its CRC leaves the register at zero, and nothing else does.
  lemma CodewordIffZero(frame: seq<byte>)
    requires |frame| > 0
    ensures Codeword(frame) <==> Register(frame) == 0
  {
    hide Poly, Plus, Shift;
    var last := |frame| - 1;
    var a, f := Register(frame[..last]), Poly(frame[last]);
    ShiftsZero(8);
    if Shifts(8, Plus(a, f)) == 0 {
      ShiftsInjective(8, Plus(a, f), 0);
    }
    PlusZero(a, f);
    ByteRoundTrip(frame[last]);
    PolyRoundTrip(a);
  }

  function Xor(a: byte, b: byte): byte {
    ((a as bv8) ^ (b as bv8)) as int
  }

  // The bytewise exclusive or of a frame and an error pattern.
  function XorAll(frame: seq<byte>, error: seq<byte>): seq<byte>
    requires |frame| == |error|
  {
    seq(|frame|, i requires 0 <= i < |frame| => Xor(frame[i], error[i]))
  }

  lemma XorIsPlus(a: byte, b: byte)
    ensures Poly(Xor(a, b)) == Plus(Poly(a), Poly(b))
  {
  }

  lemma {:induction false} RegisterLinear(frame: seq<byte>, error: seq<byte>)
    requires |frame| == |error|
    ensures Register(XorAll(frame, error)) == Plus(Register(frame), Register(error))
  {
    hide Poly, Plus, Shift, Xor, Shifts;
    if frame == [] {
      PlusZero(0, 0);
    } else {
      var last := |frame| - 1;
      RegisterLinear(frame[..last], error[..last]);
      assert XorAll(frame, error)[..last] == XorAll(frame[..last], error[..last]);
      XorIsPlus(frame[last], error[last]);
      var a, b := Register(frame[..last]), Register(error[..last]);
      var f, e := Poly(frame[last]), Poly(error[last]);
      PlusFour(a, b, f, e);
      ShiftsLinear(8, Plus(a, f), Plus(b, e));
    }
  }

  /** Which errors go unnoticed, exactly: those that are codewords themselves. */
  lemma UndetectedIffCodeword(frame: seq<byte>, error: seq<byte>)
    requires Codeword(frame) && |error| == |frame|
    ensures Codeword(XorAll(frame, error)) <==> Codeword(error)
  {
    assert |frame| > 0;
    hide Poly, Plus, Shift, Codeword, Register;
    CodewordIffZero(frame);
    CodewordIffZero(error);
    CodewordIffZero(XorAll(frame, error));
    RegisterLinear(frame, error);
    PlusZero(Register(error), 0);
  }

  // ---- Changes to one byte ----

  function ChangeByte(frame: seq<byte>, k: nat, mask: byte): seq<byte>
    requires k < |frame|
  {
    frame[k := Xor(frame[k], mask)]
  }

  lemma {:induction false} RegisterChange(frame: seq<byte>, k: nat, mask: byte)
    requires k < |frame|
    ensures Register(ChangeByte(frame, k, mask))
         == Plus(Register(frame), Shifts(8 * (|frame| - k), Poly(mask)))
  {
    hide Poly, Plus, Shift, Xor, Shifts;
    var last := |frame| - 1;
    var changed := ChangeByte(frame, k, mask);
    var a, f, m := Register(frame[..last]), Poly(frame[last]), Poly(mask);
    if k == last {
      assert changed[..last] == frame[..last];
      XorIsPlus(frame[k], mask);
      PlusLaws(a, f, m);
      ShiftsLinear(8, Plus(a, f), m);
    } else {
      RegisterChange(frame[..last], k, mask);
      assert changed[..last] == ChangeByte(frame[..last], k, mask);
      var d := Shifts(8 * (last - k), m);
      PlusLaws(a, f, d);
      ShiftsLinear(8, Plus(a, f), d);
      ShiftsAdd(8, 8 * (last - k), m);
    }
  }

  /** Any nonzero change inside one byte is noticed. */
  lemma OneByteDetected(frame: seq<byte>, k: nat, mask: byte)
    requires Codeword(frame) && k < |frame| && mask != 0
    ensures !Codeword(ChangeByte(frame, k, mask))
  {
    assert |frame| > 0;
    hide Poly, Plus, Shift, Codeword, Register;
    CodewordIffZero(frame);
    CodewordIffZero(ChangeByte(frame, k, mask));
    RegisterChange(frame, k, mask);
    var n := 8 * (|frame| - k);
    ShiftsZero(n);
    PlusZero(Shifts(n, Poly(mask)), 0);
    if Shifts(n, Poly(mask)) == 0 {
      ShiftsInjective(n, Poly(mask), 0);
    }
  }

  // ---- Bit flips ----

  // 0x80 >> r
  function Mask(r: nat): byte
    requires r < 8
  {
    match r
    case 0 => 0x80 case 1 => 0x40 case 2 => 0x20 case 3 => 0x10
    case 4 => 0x08 case 5 => 0x04 case 6 => 0x02 case 7 => 0x01
  }

  // Flips bit i of a frame, counting from the most significant bit of byte 0.
  function FlipBit(frame: seq<byte>, i: nat): (r: seq<byte>)
    requires i < 8 * |frame|
    ensures |r| == |frame|
  {
    ChangeByte(frame, i / 8, Mask(i % 8))
  }

  function FlipBits(frame: seq<byte>, flips: seq<nat>): (r: seq<byte>)
    requires forall k :: 0 <= k < |flips| ==> flips[k] < 8 * |frame|
    ensures |r| == |frame|
  {
    if flips == [] then frame
    else FlipBit(FlipBits(frame, flips[..|flips| - 1]), flips[|flips| - 1])
  }

  // Each fold keeps the exclusive or of the bits it leaves in the lower part.
  function Fold4(v: bv8): bv8 { v ^ (v >> 4) }

  function Fold2(v: bv8): bv8 { v ^ (v >> 2) }

  function Fold1(v: bv8): bv8 { v ^ (v >> 1) }

  // The exclusive or of the eight bits.
  function Parity(v: bv8): bool {
    Fold1(Fold2(Fold4(v))) & 1 != 0
  }

  lemma FoldPlus(a: bv8, b: bv8)
    ensures Fold4(Plus(a, b)) == Plus(Fold4(a), Fold4(b))
    ensures Fold2(Plus(a, b)) == Plus(Fold2(a), Fold2(b))
    ensures Fold1(Plus(a, b)) == Plus(Fold1(a), Fold1(b))
    ensures Plus(a, b) & 1 != 0 <==> (a & 1 != 0) != (b & 1 != 0)
  {
    XorShifts(a, b);
  }

  lemma ParityPlus(a: bv8, b: bv8)
    ensures Parity(Plus(a, b)) <==> (Parity(a) != Parity(b))
  {
    hide Plus, Fold4, Fold2, Fold1;
    var a4, b4 := Fold4(a), Fold4(b);
    FoldPlus(a, b);
    FoldPlus(a4, b4);
    FoldPlus(Fold2(a4), Fold2(b4));
    FoldPlus(Fold1(Fold2(a4)), Fold1(Fold2(b4)));
  }

  // The generator has an even number of terms, so a shift keeps the parity.
  lemma ShiftParity(c: bv8)
    ensures Parity(Shift(c)) == Parity(c)
  {
  }

  lemma {:induction false} ShiftsParity(n: nat, c: bv8)
    ensures Parity(Shifts(n, c)) == Parity(c)
  {
    hide Shift, Parity;
    if n > 0 {
      ShiftsParity(n - 1, c);
      ShiftParity(Shifts(n - 1, c));
    }
  }

  lemma MaskParity(r: nat)
    requires r < 8
    ensures Parity(Poly(Mask(r)))
  {
  }

  lemma {:induction false} FlipsParity(frame: seq<byte>, flips: seq<nat>)
    requires forall k :: 0 <= k < |flips| ==> flips[k] < 8 * |frame|
    ensures Parity(Register(FlipBits(frame, flips)))
        <==> (Parity(Register(frame)) != (|flips| % 2 == 1))
  {
    hide Poly, Plus, Shift, Shifts, Parity, Register, ChangeByte, Mask;
    if flips != [] {
      var last := |flips| - 1;
      FlipsParity(frame, flips[..last]);
      var before, i := FlipBits(frame, flips[..last]), flips[last];
      var n, m := 8 * (|frame| - i / 8), Poly(Mask(i % 8));
      RegisterChange(before, i / 8, Mask(i % 8));
      ShiftsParity(n, m);
      ParityPlus(Register(before), Shifts(n, m));
      MaskParity(i % 8);
    }
  }

  /** Any odd number of bit flips, at any positions, is noticed: so are 1 and 3. */
  lemma OddFlipsDetected(frame: seq<byte>, flips: seq<nat>)
    requires Codeword(frame) && |flips| % 2 == 1
    requires forall k :: 0 <= k < |flips| ==> flips[k] < 8 * |frame|
    ensures !Codeword(FlipBits(frame, flips))
  {
    assert |frame| > 0;
    hide Register, Codeword;
    CodewordIffZero(frame);
    CodewordIffZero(FlipBits(frame, flips));
    FlipsParity(frame, flips);
  }

  // x^8, x^16, ..., x^64 modulo the generator.
  lemma PowersOfX()
    ensures Shifts(8, 1) == 0x07 && Shifts(16, 1) == 0x15
    ensures Shifts(24, 1) == 0x6B && Shifts(32, 1) == 0x16 && Shifts(40, 1) == 0x62
    ensures Shifts(48, 1) == 0x29 && Shifts(56, 1) == 0xDF && Shifts(64, 1) == 0x13
  {
  }

  // The order of x is 127, so no x^n with 0 < n < 72 is 1.
  lemma OrderOfX(n: nat)
    requires 0 < n < 72
    ensures Shifts(n, 1) != 1
  {
    PowersOfX();
    ShiftsAdd(n % 8, n - n % 8, 1);
  }

  lemma MaskIsPower(r: nat)
    requires r < 8
    ensures Poly(Mask(r)) == Shifts(7 - r, 1)
  {
    assert Shifts(1, 1) == 0x02 && Shifts(2, 1) == 0x04 && Shifts(3, 1) == 0x08;
    assert Shifts(4, 1) == 0x10 && Shifts(5, 1) == 0x20 && Shifts(6, 1) == 0x40;
  }

  lemma FlipRegister(frame: seq<byte>, i: nat)
    requires i < 8 * |frame|
    ensures Register(FlipBit(frame, i))
         == Plus(Register(frame), Shifts(8 * |frame| + 7 - i, 1))
  {
    hide Poly, Plus, Shift, Shifts, Register, ChangeByte, Mask;
    RegisterChange(frame, i / 8, Mask(i % 8));
    MaskIsPower(i % 8);
    ShiftsAdd(8 * (|frame| - i / 8), 7 - i % 8, 1);
  }

  /** Two flips at different places of a 9-byte frame are noticed. */
  lemma TwoFlipsDetected(frame: seq<byte>, i: nat, j: nat)
    requires Codeword(frame) && |frame| == 9 && i < j < 72
    ensures !Codeword(FlipBit(FlipBit(frame, i), j))
  {
    hide Poly, Plus, Shift, Shifts, Register, ChangeByte, Codeword;
    CodewordIffZero(frame);
    CodewordIffZero(FlipBit(FlipBit(frame, i), j));
    FlipRegister(frame, i);
    FlipRegister(FlipBit(frame, i), j);
    var x, y := Shifts(79 - i, 1), Shifts(79 - j, 1);
    PlusZero(x, y);
    if x == y {
      ShiftsAdd(79 - j, j - i, 1);
      ShiftsInjective(79 - j, Shifts(j - i, 1), 1);
      OrderOfX(j - i);
    }
  }
}
