/** The checksum as a remainder: polynomials over GF(2) as sequences of coefficients, highest first. */
module CrcDivision {
  import opened Bytes
  import opened Crc

  type Coefficients = seq<bool>

  // x^8 + x^2 + x + 1.
  const GENERATOR: Coefficients := [true, false, false, false, false, false, true, true, true]

  function Zeros(n: nat): (p: Coefficients)
    ensures |p| == n && forall i :: 0 <= i < n ==> !p[i]
  {
    seq(n, _ => false)
  }

  // The sum of two polynomials.
  function Sum(p: Coefficients, q: Coefficients): (r: Coefficients)
    requires |p| == |q|
    ensures |r| == |p| && forall i :: 0 <= i < |p| ==> r[i] == (p[i] != q[i])
  {
    seq(|p|, i requires 0 <= i < |p| => p[i] != q[i])
  }

  // The multiple of the generator that a step subtracts.
  function Times(top: bool): (p: Coefficients)
    ensures |p| == 9 && forall i :: 0 <= i < 9 ==> p[i] == (top && GENERATOR[i])
  {
    if top then GENERATOR else Zeros(9)
  }

  /** The product with the generator, by Horner's rule: (q x + b) G = (q G) x + b G. */
  function Product(q: Coefficients): (r: Coefficients)
    ensures |r| == |q| + 8
  {
    if q == [] then Zeros(8)
    else
      var n := |q| - 1;
      Sum(Product(q[..n]) + [false], Zeros(n) + Times(q[n]))
  }

  predicate Has(c: bv8, mask: bv8) {
    c & mask != 0
  }

  function MaskAt(i: nat): bv8 {
    if i == 0 then 0x80 else if i == 1 then 0x40 else if i == 2 then 0x20 else if i == 3 then 0x10
    else if i == 4 then 0x08 else if i == 5 then 0x04 else if i == 6 then 0x02 else 0x01
  }

  // The eight coefficients of a register.
  function Low(c: bv8): (p: Coefficients)
    ensures |p| == 8 && forall i :: 0 <= i < 8 ==> p[i] == Has(c, MaskAt(i))
  {
    seq(8, i requires 0 <= i < 8 => Has(c, MaskAt(i)))
  }

  // The polynomial of a message.
  function Message(data: seq<byte>): (p: Coefficients)
    ensures |p| == 8 * |data|
  {
    if data == [] then [] else Message(data[..|data| - 1]) + Low(Poly(data[|data| - 1]))
  }

  /** p is q times the generator plus a remainder of degree below eight. */
  ghost predicate Divides(p: Coefficients, q: Coefficients, remainder: Coefficients) {
    |remainder| == 8 && |p| == |q| + 8 && p == Sum(Product(q), Zeros(|q|) + remainder)
  }

  // ---- Division step by step ----

  lemma ShiftBit(c: bv8, i: nat)
    requires i < 8
    ensures Has(Shift(c), MaskAt(i)) == ((i < 7 && Has(c, MaskAt(i + 1))) != (i >= 5 && Has(c, 0x80)))
  {
  }

  // One shift of the register is one step of the division.
  lemma ShiftDivides(c: bv8)
    ensures Low(c) + [false] == Sum(Times(Has(c, 0x80)), [false] + Low(Shift(c)))
  {
    hide Has, Shift, Low, MaskAt, Times;
    assert MaskAt(0) == 0x80 by { FirstMask(); }
    var left, right := Low(c) + [false], Sum(Times(Has(c, 0x80)), [false] + Low(Shift(c)));
    forall i | 0 <= i < 9
      ensures left[i] == right[i]
    {
      if i > 0 {
        ShiftBit(c, i - 1);
      }
    }
  }

  lemma FirstMask()
    ensures MaskAt(0) == 0x80
  {
  }

  lemma DivideStep(p: Coefficients, q: Coefficients, c: bv8)
    requires Divides(p, q, Low(c))
    ensures Divides(p + [false], q + [Has(c, 0x80)], Low(Shift(c)))
  {
    hide Low, Shift, Has, Times, Product;
    ShiftDivides(c);
    var top, n := Has(c, 0x80), |q|;
    var times, low := Times(top), Low(Shift(c));
    ProductNext(q, top);
    assert p + [false] == Sum(Product(q) + [false], Zeros(n) + (Low(c) + [false]));
    SumSplit(Product(q) + [false], Zeros(n), times, [false] + low);
    assert Zeros(n) + ([false] + low) == Zeros(n + 1) + low;
  }

  lemma SumSplit(p: Coefficients, z: Coefficients, a: Coefficients, b: Coefficients)
    requires |a| == |b| && |p| == |z| + |a| && z == Zeros(|z|)
    ensures Sum(p, z + Sum(a, b)) == Sum(Sum(p, z + a), z + b)
  {
  }

  lemma {:induction false} DivideSteps(p: Coefficients, q: Coefficients, c: bv8, n: nat)
    returns (quotient: Coefficients)
    requires Divides(p, q, Low(c))
    ensures Divides(p + Zeros(n), quotient, Low(Shifts(n, c)))
  {
    hide Low, Shift, Divides;
    if n == 0 {
      quotient := q;
      assert p + Zeros(0) == p;
    } else {
      quotient := DivideSteps(p, q, c, n - 1);
      DivideStep(p + Zeros(n - 1), quotient, Shifts(n - 1, c));
      quotient := quotient + [Has(Shifts(n - 1, c), 0x80)];
      assert p + Zeros(n - 1) + [false] == p + Zeros(n);
    }
  }

  lemma PlusBit(a: bv8, b: bv8, i: nat)
    ensures Has(Plus(a, b), MaskAt(i)) == (Has(a, MaskAt(i)) != Has(b, MaskAt(i)))
  {
  }

  lemma LowPlus(a: bv8, b: bv8)
    ensures Low(Plus(a, b)) == Sum(Low(a), Low(b))
  {
    hide Has, Plus, Low, MaskAt;
    forall i | 0 <= i < 8
      ensures Low(Plus(a, b))[i] == Sum(Low(a), Low(b))[i]
    {
      PlusBit(a, b, i);
    }
  }

  // A byte fed into the register is added to the last eight coefficients.
  lemma AddByte(m: Coefficients, q: Coefficients, c: bv8, b: bv8)
    requires Divides(m + Zeros(8), q, Low(c))
    ensures Divides(m + Low(b), q, Low(Plus(c, b)))
  {
    LowPlus(c, b);
    hide Low, Plus, Product;
    assert |m| == |q|;
    assert m + Low(b) == Sum(m + Zeros(8), Zeros(|q|) + Low(b));
    assert Sum(Sum(Product(q), Zeros(|q|) + Low(c)), Zeros(|q|) + Low(b))
        == Sum(Product(q), Zeros(|q|) + Sum(Low(c), Low(b)));
  }

  lemma {:induction false} RegisterDivides(data: seq<byte>) returns (quotient: Coefficients)
    ensures Divides(Message(data) + Zeros(8), quotient, Low(Register(data)))
  {
    if data == [] {
      quotient := [];
      assert Message(data) + Zeros(8) == Zeros(8);
      assert Low(0) == Zeros(8);
      assert Sum(Zeros(8), Zeros(0) + Zeros(8)) == Zeros(8);
    } else {
      hide Low, Divides, Shift, Plus;
      var init, b := data[..|data| - 1], Poly(data[|data| - 1]);
      quotient := RegisterDivides(init);
      AddByte(Message(init), quotient, Register(init), b);
      quotient := DivideSteps(Message(init) + Low(b), quotient, Plus(Register(init), b), 8);
    }
  }

  // ---- The remainder is unique ----

  // The rule by which a product grows.
  lemma ProductNext(q: Coefficients, b: bool)
    ensures Product(q + [b]) == Sum(Product(q) + [false], Zeros(|q|) + Times(b))
  {
    hide Times;
    assert (q + [b])[..|q|] == q;
  }

  lemma SumOfNext(p: Coefficients, q: Coefficients, z: Coefficients, a: bool, b: bool)
    requires |p| == |q| == |z| + 8 && z == Zeros(|z|)
    ensures Sum(Sum(p, q) + [false], z + Times(a != b))
         == Sum(Sum(p + [false], z + Times(a)), Sum(q + [false], z + Times(b)))
  {
    hide Times;
  }

  lemma SumNext(p: Coefficients, q: Coefficients, a: bool, b: bool)
    requires |p| == |q|
    ensures Sum(p + [a], q + [b]) == Sum(p, q) + [a != b]
  {
  }

  lemma ProductSumNext(p: Coefficients, q: Coefficients, a: bool, b: bool)
    requires |p| == |q| && Product(Sum(p, q)) == Sum(Product(p), Product(q))
    ensures Product(Sum(p + [a], q + [b])) == Sum(Product(p + [a]), Product(q + [b]))
  {
    hide Product, Times, Sum;
    SumNext(p, q, a, b);
    ProductNext(p, a);
    ProductNext(q, b);
    ProductNext(Sum(p, q), a != b);
    SumOfNext(Product(p), Product(q), Zeros(|p|), a, b);
  }

  lemma NothingToMultiply()
    ensures Product([]) == Sum(Product([]), Product([]))
  {
  }

  lemma {:induction false} ProductSum(p: Coefficients, q: Coefficients)
    requires |p| == |q|
    ensures Product(Sum(p, q)) == Sum(Product(p), Product(q))
    decreases |p|
  {
    hide Product, Sum;
    if p == [] {
      NothingToMultiply();
      assert p == q == Sum(p, q) == [];
    } else {
      var n := |p| - 1;
      ProductSum(p[..n], q[..n]);
      ProductSumNext(p[..n], q[..n], p[n], q[n]);
      assert p == p[..n] + [p[n]] && q == q[..n] + [q[n]];
    }
  }

  // Only the zero multiple of the generator has a degree below eight.
  lemma {:induction false} SmallProduct(q: Coefficients)
    requires forall i :: 0 <= i < |q| ==> !Product(q)[i]
    ensures q == Zeros(|q|) && Product(q) == Zeros(|q| + 8)
    decreases |q|
  {
    if q != [] {
      var n := |q| - 1;
      forall i | 0 <= i < n
        ensures !Product(q[..n])[i]
      {
        assert !Product(q)[i];
      }
      SmallProduct(q[..n]);
      assert !Product(q)[n];
      assert q == q[..n] + [q[n]];
    }
  }

  lemma RemainderUnique(p: Coefficients, q: Coefficients, r: Coefficients, q': Coefficients, r': Coefficients)
    requires Divides(p, q, r) && Divides(p, q', r')
    ensures q == q' && r == r'
  {
    hide Product;
    var n, d := |q|, Sum(q, q');
    ProductSum(q, q');
    forall i | 0 <= i < n
      ensures !Product(d)[i]
    {
      assert Product(q)[i] == p[i] == Product(q')[i];
    }
    SmallProduct(d);
    forall i | 0 <= i < n
      ensures q[i] == q'[i]
    {
      assert !d[i];
    }
    assert q == q';
    forall i | 0 <= i < 8
      ensures r[i] == r'[i]
    {
      assert p[n + i] == (Product(q)[n + i] != r[i]) && p[n + i] == (Product(q)[n + i] != r'[i]);
    }
  }

  /** The checksum is the remainder: the message times x^8 is a multiple of the generator plus the
      eight coefficients of the checksum, and no other remainder of degree below eight will do. */
  lemma CrcIsRemainder(data: seq<byte>)
    ensures exists q :: Divides(Message(data) + Zeros(8), q, Low(Poly(Crc8(data))))
    ensures forall q, r :: Divides(Message(data) + Zeros(8), q, r) ==> r == Low(Poly(Crc8(data)))
  {
    hide Low, Divides, Message, Register;
    var quotient := RegisterDivides(data);
    PolyRoundTrip(Register(data));
    forall q, r | Divides(Message(data) + Zeros(8), q, r)
      ensures r == Low(Poly(Crc8(data)))
    {
      RemainderUnique(Message(data) + Zeros(8), q, r, quotient, Low(Register(data)));
    }
  }
}
