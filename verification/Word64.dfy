/**
  A 64-bit machine word as its bits, lowest first, with the word operations of C++. Bitwise operations
  work place by place. Addition carries from place to place and is proved to be addition modulo 2^64.
 */
module Word64 {

  type word = w: seq<bool> | |w| == 64 witness seq(64, i => false)

  const ZERO: word := seq(64, i => false)
  const ALL_ONES: word := seq(64, i => true)

  /** `1ULL << i` */
  function OneAt(i: nat): word
    requires i < 64
  {
    seq(64, k => k == i)
  }

  function And(x: word, y: word): word {
    seq(64, i requires 0 <= i < 64 => x[i] && y[i])
  }

  function Or(x: word, y: word): word {
    seq(64, i requires 0 <= i < 64 => x[i] || y[i])
  }

  function Xor(x: word, y: word): word {
    seq(64, i requires 0 <= i < 64 => x[i] != y[i])
  }

  function Not(x: word): word {
    seq(64, i requires 0 <= i < 64 => !x[i])
  }

  /** `x << 1` */
  function Shl1(x: word): word {
    [false] + x[..63]
  }

  /** `x + y` on unsigned 64-bit integers. */
  function Add(x: word, y: word): word {
    SumBits(x, y, false)
  }

  function Majority(x: bool, y: bool, z: bool): bool {
    (x && y) || (x && z) || (y && z)
  }

  function SumBits(x: seq<bool>, y: seq<bool>, carry: bool): (s: seq<bool>)
    requires |x| == |y|
    ensures |s| == |x|
  {
    if x == [] then []
    else [(x[0] != y[0]) != carry] + SumBits(x[1..], y[1..], Majority(x[0], y[0], carry))
  }

  /** The carry that enters place i. */
  function CarryInto(x: seq<bool>, y: seq<bool>, carry: bool, i: nat): bool
    requires |x| == |y| && i <= |x|
  {
    if i == 0 then carry
    else CarryInto(x[1..], y[1..], Majority(x[0], y[0], carry), i - 1)
  }

  lemma {:induction false} SumBit(x: seq<bool>, y: seq<bool>, carry: bool, i: nat)
    requires |x| == |y| && i < |x|
    ensures SumBits(x, y, carry)[i] == ((x[i] != y[i]) != CarryInto(x, y, carry, i))
    ensures CarryInto(x, y, carry, i + 1) == Majority(x[i], y[i], CarryInto(x, y, carry, i))
  {
    if i > 0 {
      SumBit(x[1..], y[1..], Majority(x[0], y[0], carry), i - 1);
    }
  }

  // ---------------------------------------------------------------------------------------
  // The number a word stands for
  // ---------------------------------------------------------------------------------------

  function Bit(b: bool): nat {
    if b then 1 else 0
  }

  function Pow2(n: nat): (p: nat)
    ensures p > 0
  {
    if n == 0 then 1 else 2 * Pow2(n - 1)
  }

  function Value(x: seq<bool>): nat {
    if x == [] then 0 else Bit(x[0]) + 2 * Value(x[1..])
  }

  lemma {:induction false} SumValue(x: seq<bool>, y: seq<bool>, carry: bool)
    requires |x| == |y|
    ensures Value(SumBits(x, y, carry)) + (if CarryInto(x, y, carry, |x|) then Pow2(|x|) else 0)
            == Value(x) + Value(y) + Bit(carry)
  {
    if x != [] {
      var c := Majority(x[0], y[0], carry);
      SumValue(x[1..], y[1..], c);
      assert SumBits(x, y, carry)[1..] == SumBits(x[1..], y[1..], c);
    }
  }

  lemma {:induction false} ValueBelow(x: seq<bool>)
    ensures Value(x) < Pow2(|x|)
  {
    if x != [] {
      ValueBelow(x[1..]);
    }
  }

  /** Add is addition modulo 2^64. */
  lemma AddIsModular(x: word, y: word)
    ensures Value(Add(x, y)) == (Value(x) + Value(y)) % Pow2(64)
  {
    SumValue(x, y, false);
    ValueBelow(Add(x, y));
    ModUnique(Value(x) + Value(y), Pow2(64), CarryInto(x, y, false, 64), Value(Add(x, y)));
  }

  lemma ModUnique(n: nat, p: nat, wrapped: bool, r: nat)
    requires r < p && n == r + (if wrapped then p else 0)
    ensures n % p == r
  {
    Quotient(n, p, Bit(wrapped), r);
  }

  lemma Quotient(n: nat, p: nat, q: nat, r: nat)
    requires r < p && n == p * q + r
    ensures n % p == r
  {
    var other, rest := n / p, n % p;
    assert n == p * other + rest;
    if other < q {
      AtLeastOnce(p, q - other);
    } else if q < other {
      AtLeastOnce(p, other - q);
    }
  }

  lemma AtLeastOnce(p: nat, k: nat)
    requires k > 0
    ensures p * k >= p
  {
  }
}
