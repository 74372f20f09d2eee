/** Machine bytes and words as bounded integers, and the two bitwise operations the
    firmware depends on. Everything else is integer arithmetic with explicit wrap-around.
 */
module Bytes {

  type byte = x: int | 0 <= x < 256

  type word = x: int | 0 <= x < 65536

  datatype Option<T> = None | Some(value: T)

  // Bitwise and, digit by digit.
  function And(a: nat, b: nat): (r: nat)
    ensures r <= a
  {
    if a == 0 || b == 0 then 0 else 2 * And(a / 2, b / 2) + a % 2 * (b % 2)
  }

  // Bitwise or, digit by digit.
  function Or(a: nat, b: nat): (r: nat)
    ensures r <= a + b
    decreases a + b
  {
    if a == 0 then b
    else if b == 0 then a
    else 2 * Or(a / 2, b / 2) + (if a % 2 == 1 || b % 2 == 1 then 1 else 0)
  }

  lemma OrZero(a: nat)
    ensures Or(a, 0) == a
  {
  }

  lemma {:induction false} OrCommutes(a: nat, b: nat)
    ensures Or(a, b) == Or(b, a)
    decreases a + b
  {
    if a > 0 && b > 0 {
      OrCommutes(a / 2, b / 2);
    }
  }

  function Power(n: nat): nat {
    if n == 0 then 1 else 2 * Power(n - 1)
  }

  // n ones keep every number of at most n binary digits.
  lemma {:induction false} AndOnes(n: nat, a: nat)
    requires a < Power(n)
    ensures And(Power(n) - 1, a) == a
  {
    if n > 0 && a > 0 {
      AndOnes(n - 1, a / 2);
      assert (Power(n) - 1) / 2 == Power(n - 1) - 1;
    }
  }

  lemma AndErased(a: byte)
    ensures And(0xFF, a) == a
  {
    assert Power(8) == 256;
    AndOnes(8, a);
  }

  // The sequence that holds n copies of b.
  function Repeat(b: byte, n: nat): (s: seq<byte>)
    ensures |s| == n && forall i :: 0 <= i < n ==> s[i] == b
  {
    seq(n, i => b)
  }

  lemma UniqueRemainder(d: int, q: int, r: int, q': int, r': int)
    requires d * q + r == d * q' + r' && 0 <= r < d && 0 <= r' < d
    ensures q == q' && r == r'
  {
    var delta := q - q';
    assert delta >= 1 ==> d * delta >= d;
    assert delta <= -1 ==> d * delta <= -d;
    assert d * delta == r' - r;
  }

  // A remainder may be taken before an addition.
  lemma ModAdd(m: nat, a: int, b: int)
    requires m > 0
    ensures (a + b % m) % m == (a + b) % m
  {
    var v, w := a + b % m, a + b;
    assert w == m * (v / m + b / m) + v % m;
    UniqueRemainder(m, v / m + b / m, v % m, w / m, w % m);
  }
}
