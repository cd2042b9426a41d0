/** Conversions between bit vectors and numbers lose nothing. */
module Bits {

  lemma NumberOfOctet(x: bv8)
    ensures (x as nat) as bv8 == x
  {
  }

  lemma Successor(x: bv8)
    requires x != 255
    ensures (x + 1) as nat == (x as nat) + 1
  {
  }

  lemma NotTop(y: bv8)
    requires y as nat < 255
    ensures y != 255
  {
  }

  /** Every number below 256 is some octet, reached by counting up. */
  lemma {:induction false} SomeOctet(b: nat) returns (x: bv8)
    requires b < 256
    ensures x as nat == b
  {
    if b == 0 {
      x := 0;
    } else {
      var y := SomeOctet(b - 1);
      NotTop(y);
      Successor(y);
      x := y + 1;
    }
  }

  lemma OctetOfNumber(b: nat)
    requires b < 256
    ensures (b as bv8) as nat == b
  {
    var x := SomeOctet(b);
    NumberOfOctet(x);
  }

  lemma NumberOfWord(x: bv64)
    ensures (x as nat) as bv64 == x
  {
  }

  lemma NumberOfHalf(x: bv32)
    ensures (x as nat) as bv32 == x
  {
  }

  lemma HalfOfWord(x: bv64)
    requires x <= 0xFFFF_FFFF
    ensures (x as bv32) as bv64 == x
  {
  }

  /** A register that holds 32 bits, as a number. */
  function LowHalf(x: bv64): (n: nat)
    requires x <= 0xFFFF_FFFF
    ensures n < 0x1_0000_0000
  {
    (x as bv32) as nat
  }

  lemma WordsDiffer(x: bv64, y: bv64)
    requires x != y
    ensures x as nat != y as nat
  {
    NumberOfWord(x);
    NumberOfWord(y);
  }

  lemma HalvesDiffer(x: bv64, y: bv64)
    requires x != y && x <= 0xFFFF_FFFF && y <= 0xFFFF_FFFF
    ensures LowHalf(x) != LowHalf(y)
  {
    HalfOfWord(x);
    HalfOfWord(y);
    NumberOfHalf(x as bv32);
    NumberOfHalf(y as bv32);
  }

  lemma CheckNumbers()
    ensures (0x995D_C9BB_DF19_39FA as bv64) as nat == 0x995D_C9BB_DF19_39FA
    ensures LowHalf(0xCBF4_3926) == 0xCBF4_3926
  {
  }

  function AsOctet(b: nat): bv8
    requires b < 256
  {
    b as bv8
  }

  lemma DigitsAsOctets()
    ensures AsOctet(0x31) == 0x31 && AsOctet(0x32) == 0x32 && AsOctet(0x33) == 0x33 && AsOctet(0x34) == 0x34
    ensures AsOctet(0x35) == 0x35 && AsOctet(0x36) == 0x36 && AsOctet(0x37) == 0x37 && AsOctet(0x38) == 0x38
    ensures AsOctet(0x39) == 0x39
  {
  }
}
