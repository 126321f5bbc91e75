/** Numbers as strings of bytes, least significant byte first. */
module Bytes {
  import opened Arithmetic
  import opened Bits

  type byte = x: nat | x < 256

  function Radix(size: nat): (r: nat)
    ensures r > 0
  {
    Pow2(8 * size)
  }

  /** The number an object's bytes stand for, least significant byte first. */
  function Number(bytes: seq<byte>): nat {
    if bytes == [] then 0 else bytes[0] + 256 * Number(bytes[1..])
  }

  function Digits(size: nat, x: nat): (bytes: seq<byte>)
    ensures |bytes| == size
  {
    if size == 0 then [] else [x % 256] + Digits(size - 1, x / 256)
  }

  lemma RadixStep(size: nat)
    requires size > 0
    ensures Radix(size) == 256 * Radix(size - 1) && Radix(0) == 1
  {
    Pow2Add(8, 8 * (size - 1));
    Pow2Values();
  }

  lemma {:induction false} NumberOfDigits(size: nat, x: nat)
    ensures Number(Digits(size, x)) == x % Radix(size)
  {
    if size == 0 {
      assert Radix(0) == 1;
    } else {
      RadixStep(size);
      NumberOfDigits(size - 1, x / 256);
      DivideTwice(x, 256, Radix(size - 1));
      assert Digits(size, x)[1..] == Digits(size - 1, x / 256);
    }
  }

  lemma {:induction false} NumberBound(bytes: seq<byte>)
    ensures Number(bytes) < Radix(|bytes|)
  {
    if bytes == [] {
      assert Radix(0) == 1;
    } else {
      RadixStep(|bytes|);
      NumberBound(bytes[1..]);
    }
  }

  lemma DropDigit(x: nat, i: nat)
    requires i > 0
    ensures x / Pow2(8 * i) == x / 256 / Pow2(8 * (i - 1))
  {
    hide Pow2;
    Pow2Values();
    Pow2Add(8, 8 * (i - 1));
    DivideTwice(x, 256, Pow2(8 * (i - 1)));
  }

  /** Byte i of a number is its digit of weight 256^i, the first being the lowest. */
  lemma {:induction false} DigitAt(size: nat, x: nat, i: nat)
    requires i < size
    ensures Digits(size, x)[i] == x / Pow2(8 * i) % 256
  {
    if i == 0 {
      assert Pow2(0) == 1;
    } else {
      DropDigit(x, i);
      DigitAt(size - 1, x / 256, i - 1);
    }
  }

  lemma {:induction false} NumberDigit(bytes: seq<byte>, i: nat)
    requires i < |bytes|
    ensures Number(bytes) / Pow2(8 * i) % 256 == bytes[i]
  {
    var rest: nat := Number(bytes[1..]);
    DivModUnique(Number(bytes), 256, rest, bytes[0]);
    if i == 0 {
      assert Pow2(0) == 1;
    } else {
      DropDigit(Number(bytes), i);
      NumberDigit(bytes[1..], i - 1);
    }
  }
}
