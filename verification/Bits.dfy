/** Bit operations on unsigned numbers, as far as the libraries mask and shift with them. */
module Bits {

  function Pow2(k: nat): (r: nat)
    ensures r > 0
  {
    if k == 0 then 1 else 2 * Pow2(k - 1)
  }

  /** `x & y`. */
  function And(x: nat, y: nat): nat
    decreases x
  {
    if x == 0 then 0 else (x % 2) * (y % 2) + 2 * And(x / 2, y / 2)
  }

  lemma ModUnique(x: nat, m: nat, q: nat, r: nat)
    requires m > 0 && r < m && x == m * q + r
    ensures x % m == r && x / m == q
  {
    var d := x / m - q;
    assert x == m * (x / m) + x % m;
    assert m * (x / m) - m * q == m * d;
    if d != 0 {
      BigMultiple(m, d);
    }
  }

  lemma BigMultiple(m: int, d: int)
    requires m > 0 && d != 0
    ensures m * d >= m || m * d <= -m
  {
  }

  lemma HalfMod(x: nat, m: nat)
    requires m > 0
    ensures x % (2 * m) == x % 2 + 2 * (x / 2 % m)
  {
    var q, r := x / 2 / m, x / 2 % m;
    assert x / 2 == m * q + r;
    assert x == 2 * (m * q + r) + x % 2;
    assert x == 2 * m * q + (2 * r + x % 2);
    ModUnique(x, 2 * m, q, 2 * r + x % 2);
  }

  lemma {:induction false} AndZero(x: nat)
    ensures And(x, 0) == 0
  {
    if x != 0 {
      AndZero(x / 2);
    }
  }

  /** Masking with a power of two less one takes the remainder. */
  lemma {:induction false} AndMask(x: nat, k: nat)
    ensures And(x, Pow2(k) - 1) == x % Pow2(k)
  {
    hide And;
    if k == 0 {
      AndZero(x);
    } else if x != 0 {
      var m := Pow2(k - 1);
      assert (2 * m - 1) % 2 == 1 && (2 * m - 1) / 2 == m - 1;
      AndDigits(x, 2 * m - 1);
      AndMask(x / 2, k - 1);
      HalfMod(x, m);
    } else {
      AndNothing(Pow2(k) - 1);
      SmallMod(Pow2(k));
    }
  }

  lemma AndDigits(x: nat, y: nat)
    requires x > 0
    ensures And(x, y) == (x % 2) * (y % 2) + 2 * And(x / 2, y / 2)
  {
  }

  lemma AndNothing(y: nat)
    ensures And(0, y) == 0
  {
  }

  lemma SmallMod(m: nat)
    requires m > 0
    ensures 0 % m == 0
  {
  }

  /** `1U << k` for the bit numbers of a byte. */
  function BitMask(k: nat): bv8
    requires k < 8
  {
    match k
    case 0 => 0x01 case 1 => 0x02 case 2 => 0x04 case 3 => 0x08
    case 4 => 0x10 case 5 => 0x20 case 6 => 0x40 case _ => 0x80
  }

  predicate HasBit(b: bv8, k: nat)
    requires k < 8
  {
    b & BitMask(k) != 0
  }

  function SetBit(b: bv8, k: nat): bv8
    requires k < 8
  {
    b | BitMask(k)
  }

  /** Setting bit `k` sets no other bit. */
  lemma BitsSet(b: bv8, k: nat, j: nat)
    requires k < 8 && j < 8
    ensures HasBit(SetBit(b, k), j) <==> HasBit(b, j) || j == k
  {
    assert k != j ==> BitMask(k) & BitMask(j) == 0;
  }

  lemma {:induction false} Pow2Add(j: nat, k: nat)
    ensures Pow2(j + k) == Pow2(j) * Pow2(k)
  {
    if j != 0 {
      Pow2Add(j - 1, k);
    }
  }

  /** `x | y`. */
  function Or(x: nat, y: nat): nat
    decreases x
  {
    if x == 0 then y else (if x % 2 == 1 || y % 2 == 1 then 1 else 0) + 2 * Or(x / 2, y / 2)
  }

  /** The number of binary digits. */
  function Length(x: nat): nat {
    if x == 0 then 0 else 1 + Length(x / 2)
  }

  predicate AllOnes(x: nat) {
    x + 1 == Pow2(Length(x))
  }

  /** The `w` leading digits are ones. */
  predicate TopOnes(x: nat, w: nat) {
    if Length(x) <= w then AllOnes(x) else TopOnes(x / 2, w)
  }

  lemma {:induction false} LengthBounds(x: nat)
    ensures x < Pow2(Length(x)) && (x > 0 ==> Pow2(Length(x)) <= 2 * x)
  {
    if x > 0 { LengthBounds(x / 2); }
  }

  lemma {:induction false} LengthAtMost(x: nat, k: nat)
    requires x < Pow2(k)
    ensures Length(x) <= k
  {
    if x > 0 { LengthAtMost(x / 2, k - 1); }
  }

  lemma {:induction false} TopOne(x: nat)
    ensures TopOnes(x, 1)
  {
    if x > 1 { TopOne(x / 2); }
  }

  /** `x >> k`. */
  function Shr(x: nat, k: nat): nat {
    if k == 0 then x else Shr(x / 2, k - 1)
  }

  lemma {:induction false} ShrOne(x: nat, k: nat)
    ensures Shr(x, k) / 2 == Shr(x / 2, k)
  {
    if k > 0 { ShrOne(x / 2, k - 1); }
  }

  lemma {:induction false} ShrLength(x: nat, k: nat)
    ensures Length(Shr(x, k)) == if k <= Length(x) then Length(x) - k else 0
  {
    if k > 0 { ShrLength(x / 2, k - 1); }
  }

  lemma {:induction false} ShiftedOnes(x: nat, w: nat, k: nat)
    requires TopOnes(x, w) && k + w >= Length(x)
    ensures AllOnes(Shr(x, k))
  {
    if k > 0 {
      assert Length(x) <= w && x > 0 ==> AllOnes(x / 2);
      ShiftedOnes(x / 2, w, k - 1);
    }
  }

  lemma OrZero(x: nat)
    ensures Or(x, 0) == x
  {
  }

  /** `x | x >> w` doubles the number of leading ones and keeps the length. */
  lemma {:induction false} SmearStep(x: nat, w: nat)
    requires w > 0 && TopOnes(x, w)
    ensures Length(Or(x, Shr(x, w))) == Length(x) && TopOnes(Or(x, Shr(x, w)), 2 * w)
  {
    ShrLength(x, w);
    if Length(x) <= w {
      OrZero(x);
    } else {
      ShrOne(x, w);
      SmearStep(x / 2, w);
      if Length(x) <= 2 * w {
        ShiftedOnes(x, w, w);
        OnesOdd(Shr(x, w));
      }
      OneDigitMore(x, Shr(x, w), w);
    }
  }

  lemma OnesOdd(x: nat)
    requires AllOnes(x) && x > 0
    ensures x % 2 == 1
  {
  }

  lemma OrDigits(x: nat, z: nat)
    requires x > 0
    ensures Or(x, z) / 2 == Or(x / 2, z / 2) && Or(x, z) > 0 && (z % 2 == 1 ==> Or(x, z) % 2 == 1)
  {
  }

  lemma OneMore(y: nat)
    requires y % 2 == 1 && AllOnes(y / 2)
    ensures AllOnes(y)
  {
    var h := y / 2;
    assert y == 2 * h + 1;
    assert Length(y) == 1 + Length(h);
    assert Pow2(1 + Length(h)) == 2 * Pow2(Length(h));
  }

  lemma LengthHalf(y: nat)
    requires y > 0
    ensures Length(y) == 1 + Length(y / 2)
  {
  }

  lemma OneDigitMore(x: nat, z: nat, w: nat)
    requires x > 0 && w > 0 && (Length(x) <= 2 * w ==> z % 2 == 1)
    requires Length(Or(x / 2, z / 2)) == Length(x / 2) && TopOnes(Or(x / 2, z / 2), 2 * w)
    ensures Length(Or(x, z)) == Length(x) && TopOnes(Or(x, z), 2 * w)
  {
    hide Or, Length, AllOnes, Pow2;
    OrDigits(x, z);
    var y := Or(x, z);
    LengthHalf(x);
    LengthHalf(y);
    if Length(x) <= 2 * w {
      OneMore(y);
    }
  }

  lemma {:induction false} Pow2Monotone(j: nat, k: nat)
    requires j <= k
    ensures Pow2(j) <= Pow2(k)
  {
    if j < k { Pow2Monotone(j, k - 1); }
  }
}
