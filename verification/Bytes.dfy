/** Single bytes and the compiler's count-trailing-zeros builtin. */
module Bytes {
  /** Bit i of b, counted from the least significant. */
  predicate Bit(b: bv8, i: nat) {
    if i == 0 then b & 1 != 0 else if i == 1 then b & 2 != 0
    else if i == 2 then b & 4 != 0 else if i == 3 then b & 8 != 0
    else if i == 4 then b & 16 != 0 else if i == 5 then b & 32 != 0
    else if i == 6 then b & 64 != 0 else i == 7 && b & 128 != 0
  }

  lemma ShiftBit(b: bv8, k: nat, j: nat)
    requires k <= 8 && j < 8
    ensures Bit(b >> k, j) <==> Bit(b, k + j)
  {
  }

  lemma SetBit(b: bv8, i: nat, j: nat)
    requires i < 8 && j < 8
    ensures Bit(b | (1 << i), j) <==> i == j || Bit(b, j)
  {
  }

  lemma ClearBit(b: bv8, i: nat, j: nat)
    requires i < 8 && j < 8
    ensures Bit(b & !(1 << i), j) <==> i != j && Bit(b, j)
  {
  }

  lemma ByteByBits(b: bv8)
    ensures b == 0 <==> forall i :: 0 <= i < 8 ==> !Bit(b, i)
    ensures b == 0xFF <==> forall i :: 0 <= i < 8 ==> Bit(b, i)
  {
    assert Bit(b, 0) || Bit(b, 1) || Bit(b, 2) || Bit(b, 3) || Bit(b, 4) || Bit(b, 5) || Bit(b, 6) || Bit(b, 7) || b == 0;
    assert !Bit(b, 0) || !Bit(b, 1) || !Bit(b, 2) || !Bit(b, 3) || !Bit(b, 4) || !Bit(b, 5) || !Bit(b, 6) || !Bit(b, 7)
        || b == 0xFF;
  }

  predicate WordBit(x: bv32, i: nat)
    requires i < 32
  {
    (x >> i) & 1 != 0
  }

  /** The number of zero bits of x from position i up. */
  function ZerosFrom(x: bv32, i: nat): (n: nat)
    requires i <= 32
    ensures n <= 32 - i
    decreases 32 - i
  {
    if i == 32 || WordBit(x, i) then 0 else 1 + ZerosFrom(x, i + 1)
  }

  /** __builtin_ctz; not defined for 0. */
  function Ctz(x: bv32): nat
    requires x != 0
  {
    ZerosFrom(x, 0)
  }

  lemma WideBit(b: bv8, i: nat)
    requires i < 8
    ensures WordBit(b as bv32, i) <==> Bit(b, i)
  {
  }

  lemma WideComplementBit(b: bv8, i: nat)
    requires i <= 8
    ensures WordBit(!(b as bv32), i) <==> !Bit(b, i)
    ensures i == 8 ==> !Bit(b, i)
  {
  }

  lemma {:induction false} SetBitsFrom(b: bv8, i: nat)
    requires i <= 8
    ensures var n := ZerosFrom(!(b as bv32), i);
            i + n <= 8 && (forall j :: i <= j < i + n ==> Bit(b, j)) && !Bit(b, i + n)
    decreases 8 - i
  {
    hide Bit, WordBit;
    WideComplementBit(b, i);
    if Bit(b, i) {
      SetBitsFrom(b, i + 1);
    }
  }

  /** ctz of the complement is the length of the block of set bits at the bottom, at most 8. */
  lemma TrailingOnes(b: bv8)
    ensures !(b as bv32) != 0
    ensures var n := Ctz(!(b as bv32));
            n <= 8 && (forall j :: 0 <= j < n ==> Bit(b, j)) && !Bit(b, n)
  {
    SetBitsFrom(b, 0);
  }

  lemma {:induction false} ClearBitsFrom(b: bv8, i: nat)
    requires i < 8 && exists j :: i <= j < 8 && Bit(b, j)
    ensures var n := ZerosFrom(b as bv32, i);
            i + n < 8 && (forall j :: i <= j < i + n ==> !Bit(b, j)) && Bit(b, i + n)
    decreases 8 - i
  {
    hide Bit, WordBit;
    WideBit(b, i);
    if !Bit(b, i) {
      ClearBitsFrom(b, i + 1);
    }
  }

  /** ctz of a non-zero byte is the length of the block of clear bits at its bottom. */
  lemma TrailingZeros(b: bv8)
    requires b != 0
    ensures var n := Ctz(b as bv32);
            n < 8 && (forall j :: 0 <= j < n ==> !Bit(b, j)) && Bit(b, n)
  {
    ByteByBits(b);
    ClearBitsFrom(b, 0);
  }

  // ---- byte arithmetic

  function Number(b: bv8): (r: int)
    ensures 0 <= r < 256
  {
    b as int
  }

  function Plus(a: bv8, b: bv8): bv8 {
    a + b
  }

  lemma PlusOne(a: bv8)
    ensures Number(Plus(a, 1)) == (Number(a) + 1) % 256
  {
  }

  lemma MinusOne(b: bv8)
    requires Number(b) > 0
    ensures Number(Plus(b, 255)) == Number(b) - 1
  {
  }

  lemma PlusRegrouped(a: bv8, b: bv8)
    ensures Plus(Plus(a, Plus(b, 255)), 1) == Plus(a, b)
  {
  }

  lemma PlusZero(a: bv8, b: bv8)
    requires Number(b) == 0
    ensures Plus(a, b) == a
  {
  }

  lemma OneMore(x: int)
    ensures (x % 256 + 1) % 256 == (x + 1) % 256
  {
  }

  /** The sum of two bytes wraps. */
  lemma {:induction false} PlusNumber(a: bv8, b: bv8)
    ensures Number(Plus(a, b)) == (Number(a) + Number(b)) % 256
    decreases Number(b)
  {
    hide *;
    if Number(b) > 0 {
      var c := Plus(b, 255);
      MinusOne(b);
      PlusNumber(a, c);
      PlusOne(Plus(a, c));
      PlusRegrouped(a, b);
      OneMore(Number(a) + Number(c));
    } else {
      PlusZero(a, b);
    }
  }

  function Rotated(b: bv8): bv8 {
    b.RotateRight(1)
  }

  lemma RotatedParts(b: bv8)
    ensures Rotated(b) == if b & 1 == 1 then 128 + (b >> 1) else b >> 1
    ensures b & 1 == 1 <==> b as int % 2 == 1
    ensures (b >> 1) as int == b as int / 2
  {
  }

  lemma WithHighBit(b: bv8)
    ensures (128 + (b >> 1)) as int == 128 + (b >> 1) as int
  {
  }

  /** Rotating right moves the lowest bit to the top. */
  lemma RotatedNumber(b: bv8)
    ensures Number(Rotated(b)) == Number(b) % 2 * 128 + Number(b) / 2
  {
    RotatedParts(b);
    WithHighBit(b);
    hide Rotated;
  }

  lemma NumberOf(n: int)
    requires 0 <= n < 256
    ensures Number(n as bv8) == n
  {
  }
}
