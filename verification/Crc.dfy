/** The two reflected CRCs of the E2E header: CRC-64/XZ for interface v1.0.x
    frames (src/protocol/e2e.cpp, polynomial of ECMA-182) and the IEEE 802.3
    CRC-32 for v1.1.0 frames
    (third_party/afi920_interface/src/c/bts_iso23150_e2e.h).

    The definition feeds one message bit at a time into a register. The code
    uses a 256-entry table for CRC-64 and a 16-entry nibble table for CRC-32;
    both are proved equal to the definition, and the definition is proved to
    detect every error confined to as many consecutive bytes as the register
    has. A 32-bit register is held in the low half of a 64-bit word. Facts
    about the bits of a word are proved in lemmas of their own; the inductions
    hide the bits and use only those. */
module Crc {

  type octet = bv8

  const POLY64: bv64 := 0xC96C_5795_D787_0F42
  const ONES64: bv64 := 0xFFFF_FFFF_FFFF_FFFF
  const POLY32: bv64 := 0xEDB8_8320
  const ONES32: bv64 := 0xFFFF_FFFF

  function Xor(a: bv64, b: bv64): bv64 { a ^ b }
  function Wide(b: octet): bv64 { b as bv64 }
  function Half(c: bv64): bv64 { c >> 1 }
  predicate Even(c: bv64) { c & 1 == 0 }
  function Up8(w: bv64): bv64 { w << 8 }
  function Down8(w: bv64): bv64 { w >> 8 }
  function Down4(w: bv64): bv64 { w >> 4 }
  function Low8(x: bv64): bv64 { x & 0xFF }
  function High8(x: bv64): bv64 { x & !0xFF }
  function Low4(x: bv64): bv64 { x & 0xF }
  function High4(x: bv64): bv64 { x & !0xF }

  // ---- definition

  /** Divide the register by x modulo the polynomial p. */
  function Shift1(p: bv64, c: bv64): bv64 {
    if Even(c) then Half(c) else Xor(Half(c), p)
  }

  /** Feed the n low bits of w, least significant bit first. */
  function FeedBits(p: bv64, n: nat, c: bv64, w: bv64): bv64 {
    if n == 0 then c else FeedBits(p, n - 1, Shift1(p, Xor(c, w & 1)), Half(w))
  }

  function FeedOctet(p: bv64, c: bv64, b: octet): bv64 { FeedBits(p, 8, c, Wide(b)) }

  /** The register r continued over the bits of data. */
  function Continue(p: bv64, r: bv64, data: seq<octet>): bv64 {
    if data == [] then r else FeedOctet(p, Continue(p, r, data[..|data| - 1]), data[|data| - 1])
  }

  function Crc64(data: seq<octet>): bv64 { Xor(Continue(POLY64, ONES64, data), ONES64) }

  function Crc32(data: seq<octet>): bv64 { Xor(Continue(POLY32, ONES32, data), ONES32) }

  // ---- facts about bits

  lemma HalfXor(a: bv64, b: bv64)
    ensures Half(Xor(a, b)) == Xor(Half(a), Half(b))
    ensures Even(Xor(a, b)) <==> (Even(a) <==> Even(b))
  {
  }

  lemma Shift1Linear(p: bv64, a: bv64, b: bv64)
    ensures Shift1(p, Xor(a, b)) == Xor(Shift1(p, a), Shift1(p, b))
  {
    hide Xor, Half, Even;
    HalfXor(a, b);
    var x, y := Half(a), Half(b);
    if Even(a) {
      XorAssociates(x, y, p);
    } else if Even(b) {
      XorAssociates(x, y, p);
      XorCommutes(y, p);
      XorAssociates(x, p, y);
    } else {
      XorPairs(x, p, y, p);
      XorZero(p);
      XorZero(Xor(x, y));
    }
  }

  lemma LowBitApart(c: bv64, w: bv64)
    ensures Xor(c, w) == Xor(Xor(c, w & 1), w & !1)
    ensures Even(w & !1) && Half(w & !1) == Half(w)
  {
  }

  lemma LowOctetApart(x: bv64)
    ensures Xor(High8(x), Low8(x)) == x
    ensures Low8(High8(x)) == 0 && Down8(High8(x)) == Down8(x)
  {
  }

  lemma LowNibbleApart(x: bv64)
    ensures Xor(High4(x), Low4(x)) == x
    ensures Low4(High4(x)) == 0 && Down4(High4(x)) == Down4(x)
  {
  }

  lemma XorZero(w: bv64)
    ensures Xor(0, w) == w && Xor(w, 0) == w && Xor(w, w) == 0
  {
  }

  lemma XorIsZero(a: bv64, b: bv64)
    ensures Xor(a, b) == 0 <==> a == b
  {
    hide Xor;
    CancelTwice(a, b);
    XorZero(b);
  }

  lemma XorCommutes(a: bv64, b: bv64)
    ensures Xor(a, b) == Xor(b, a)
  {
  }

  lemma XorAssociates(a: bv64, b: bv64, c: bv64)
    ensures Xor(Xor(a, b), c) == Xor(a, Xor(b, c))
  {
  }

  lemma XorPairs(r: bv64, s: bv64, x: bv64, y: bv64)
    ensures Xor(Xor(r, s), Xor(x, y)) == Xor(Xor(r, x), Xor(s, y))
  {
    hide Xor;
    calc {
      Xor(Xor(r, s), Xor(x, y));
      { XorAssociates(r, s, Xor(x, y)); }
      Xor(r, Xor(s, Xor(x, y)));
      { XorAssociates(s, x, y); XorCommutes(s, x); XorAssociates(x, s, y); }
      Xor(r, Xor(x, Xor(s, y)));
      { XorAssociates(r, x, Xor(s, y)); }
      Xor(Xor(r, x), Xor(s, y));
    }
  }

  /** Xoring in an octet leaves the upper bits alone. */
  lemma UpperBits(c: bv64, b: octet)
    ensures Down8(Xor(c, Wide(b))) == Down8(c)
  {
  }

  lemma ShiftEven(p: bv64, w: bv64)
    requires Even(w)
    ensures Shift1(p, w) == Half(w)
  {
  }

  // ---- register width

  /** Registers of `width` octets under polynomial p: the top bit of p is the
      top bit of the register. */
  predicate IsCode(width: nat, p: bv64) {
    (width == 8 && p >> 63 == 1) || (width == 4 && p >> 31 == 1)
  }

  predicate InWidth(width: nat, c: bv64) { width == 8 || c >> 32 == 0 }

  lemma Shift1Width(width: nat, p: bv64, c: bv64)
    requires IsCode(width, p) && InWidth(width, c)
    ensures InWidth(width, Shift1(p, c))
  {
  }

  /** No register value but zero is shifted to zero. */
  lemma Shift1Injective(width: nat, p: bv64, c: bv64)
    requires IsCode(width, p) && InWidth(width, c)
    ensures Shift1(p, c) == 0 ==> c == 0
  {
  }

  lemma XorWidth(width: nat, a: bv64, b: bv64)
    requires InWidth(width, a) && InWidth(width, b)
    ensures InWidth(width, Xor(a, b))
  {
  }

  lemma OctetWidth(width: nat, b: octet)
    ensures InWidth(width, Wide(b))
  {
  }

  // ---- n shifts

  function Shifts(p: bv64, n: nat, c: bv64): bv64 {
    if n == 0 then c else Shifts(p, n - 1, Shift1(p, c))
  }

  lemma {:induction false} ShiftsLinear(p: bv64, n: nat, a: bv64, b: bv64)
    ensures Shifts(p, n, Xor(a, b)) == Xor(Shifts(p, n, a), Shifts(p, n, b))
    decreases n
  {
    hide Shift1, Xor;
    if n > 0 {
      Shift1Linear(p, a, b);
      ShiftsLinear(p, n - 1, Shift1(p, a), Shift1(p, b));
    }
  }

  lemma {:induction false} ShiftsInjective(width: nat, p: bv64, n: nat, c: bv64)
    requires IsCode(width, p) && InWidth(width, c)
    ensures InWidth(width, Shifts(p, n, c))
    ensures Shifts(p, n, c) == 0 ==> c == 0
    decreases n
  {
    hide Shift1, IsCode, InWidth;
    if n > 0 {
      Shift1Width(width, p, c);
      Shift1Injective(width, p, c);
      ShiftsInjective(width, p, n - 1, Shift1(p, c));
    }
  }

  lemma {:induction false} ShiftsAdd(p: bv64, m: nat, n: nat, c: bv64)
    ensures Shifts(p, m + n, c) == Shifts(p, n, Shifts(p, m, c))
    decreases m
  {
    hide Shift1;
    if m > 0 { ShiftsAdd(p, m - 1, n, Shift1(p, c)); }
  }

  lemma PlainStep(p: bv64, n: nat, c: bv64)
    requires n > 0 && Even(c)
    ensures Shifts(p, n, c) == Shifts(p, n - 1, Half(c))
  {
    hide Shift1;
    ShiftEven(p, c);
  }

  lemma FourZeros(c: bv64)
    requires Low4(c) == 0
    ensures Even(c) && Even(Half(c)) && Even(Half(Half(c))) && Even(Half(Half(Half(c))))
    ensures Half(Half(Half(Half(c)))) == Down4(c)
  {
  }

  lemma EightZeros(c: bv64)
    requires Low8(c) == 0
    ensures Low4(c) == 0 && Low4(Down4(c)) == 0 && Down4(Down4(c)) == Down8(c)
  {
  }

  lemma NoShifts(p: bv64, c: bv64)
    ensures Shifts(p, 0, c) == c
  {
  }

  /** Four zero bits at the bottom: four shifts are one plain shift. */
  lemma FourPlainShifts(p: bv64, c: bv64)
    requires Low4(c) == 0
    ensures Shifts(p, 4, c) == Down4(c)
  {
    hide Shift1, Shifts, Half, Even, Low4, Down4;
    FourZeros(c);
    PlainStep(p, 4, c);
    PlainStep(p, 3, Half(c));
    PlainStep(p, 2, Half(Half(c)));
    PlainStep(p, 1, Half(Half(Half(c))));
    NoShifts(p, Down4(c));
  }

  lemma EightPlainShifts(p: bv64, c: bv64)
    requires Low8(c) == 0
    ensures Shifts(p, 8, c) == Down8(c)
  {
    hide Shift1, Shifts, Low4, Low8, Down4, Down8;
    EightZeros(c);
    ShiftsAdd(p, 4, 4, c);
    FourPlainShifts(p, c);
    FourPlainShifts(p, Down4(c));
  }

  // ---- one octet at a time

  /** The bits of w above the n lowest. */
  function RestOf(n: nat, w: bv64): bv64 {
    if n == 0 then w else RestOf(n - 1, Half(w))
  }

  lemma FourRests(n: nat, w: bv64)
    requires n >= 4
    ensures RestOf(n, w) == RestOf(n - 4, Half(Half(Half(Half(w)))))
  {
    hide Half;
    assert RestOf(n, w) == RestOf(n - 1, Half(w)) == RestOf(n - 2, Half(Half(w)));
  }

  lemma NothingAbove(b: octet)
    ensures Half(Half(Half(Half(Half(Half(Half(Half(Wide(b))))))))) == 0
  {
  }

  lemma RestOfOctet(b: octet)
    ensures RestOf(8, Wide(b)) == 0
  {
    hide Wide, Half;
    FourRests(8, Wide(b));
    FourRests(4, Half(Half(Half(Half(Wide(b))))));
    NothingAbove(b);
  }

  lemma FirstBit(p: bv64, c: bv64, w: bv64)
    ensures Shift1(p, Xor(c, w)) == Xor(Shift1(p, Xor(c, w & 1)), Half(w))
  {
    hide Shift1, Xor, Half, Even;
    LowBitApart(c, w);
    Shift1Linear(p, Xor(c, w & 1), w & !1);
    ShiftEven(p, w & !1);
  }

  /** Feeding n bits one by one is xoring w in at once and shifting n times. */
  lemma {:induction false} FeedAtOnce(p: bv64, n: nat, c: bv64, w: bv64)
    ensures Shifts(p, n, Xor(c, w)) == Xor(FeedBits(p, n, c, w), RestOf(n, w))
    decreases n
  {
    hide Shift1, Xor, Half;
    if n > 0 {
      FirstBit(p, c, w);
      FeedAtOnce(p, n - 1, Shift1(p, Xor(c, w & 1)), Half(w));
    }
  }

  function Step8(p: bv64, c: bv64): bv64 { Shifts(p, 8, c) }

  /** One octet of the definition: xor it in, shift eight times. */
  lemma FeedOctetIs(p: bv64, c: bv64, b: octet)
    ensures FeedOctet(p, c, b) == Step8(p, Xor(c, Wide(b)))
  {
    hide Shift1, Xor, Shifts, FeedBits, RestOf, Wide;
    FeedAtOnce(p, 8, c, Wide(b));
    RestOfOctet(b);
    XorZero(FeedBits(p, 8, c, Wide(b)));
  }

  // ---- the code: CRC-64 by a table of octets

  /** Table entry n: the octet n shifted eight times. */
  function Entry(n: octet): bv64 { Step8(POLY64, Wide(n)) }

  function LowOctet(x: bv64): octet { (x & 0xFF) as bv8 }

  lemma LowOctetWide(x: bv64)
    ensures Wide(LowOctet(x)) == Low8(x)
  {
  }

  /** One table step equals eight bit steps. */
  lemma TableStep(c: bv64, b: octet)
    ensures FeedOctet(POLY64, c, b) == Xor(Down8(c), Entry(LowOctet(Xor(c, Wide(b)))))
  {
    hide Xor, Wide, Shifts, FeedOctet, LowOctet, Down8, Low8, High8;
    var x := Xor(c, Wide(b));
    FeedOctetIs(POLY64, c, b);
    LowOctetApart(x);
    ShiftsLinear(POLY64, 8, High8(x), Low8(x));
    EightPlainShifts(POLY64, High8(x));
    UpperBits(c, b);
    LowOctetWide(x);
  }

  ghost predicate IsTable(t: seq<bv64>) {
    |t| == 256 && forall n: nat :: n < 256 ==> t[n] == Entry(n as bv8)
  }

  lemma IndexRoundTrip(x: octet)
    ensures (x as nat) < 256 && (x as nat) as bv8 == x
  {
  }

  /** crc64_table. */
  method MakeTable() returns (t: array<bv64>)
    ensures fresh(t) && IsTable(t[..])
  {
    hide Shift1, Xor, Wide;
    t := new bv64[256];
    for n := 0 to 256
      invariant forall m: nat :: m < n ==> t[m] == Entry(m as bv8)
    {
      var c := Wide(n as bv8);
      for k := 0 to 8
        invariant Shifts(POLY64, 8 - k, c) == Entry(n as bv8)
      {
        c := Shift1(POLY64, c);
      }
      t[n] := c;
    }
  }

  /** e2e_crc64_xz. */
  method ComputeCrc64(data: seq<octet>, t: array<bv64>) returns (crc: bv64)
    requires IsTable(t[..])
    ensures crc == Crc64(data)
  {
    hide Xor, Wide, Entry, FeedOctet, LowOctet, Down8;
    crc := ONES64;
    for i := 0 to |data|
      invariant crc == Continue(POLY64, ONES64, data[..i])
    {
      var x := LowOctet(Xor(crc, Wide(data[i])));
      TableStep(crc, data[i]);
      IndexRoundTrip(x);
      var entry := t[..][x as nat];
      assert data[..i + 1][..i] == data[..i];
      crc := Xor(Down8(crc), entry);
    }
    assert data[..|data|] == data;
    crc := Xor(crc, ONES64);
  }

  // ---- the code: CRC-32 by a table of nibbles

  const NIBBLES: seq<bv64> :=
    [0x0000_0000, 0x1DB7_1064, 0x3B6E_20C8, 0x26D9_30AC, 0x76DC_4190, 0x6B6B_51F4, 0x4DB2_6158, 0x5005_713C,
     0xEDB8_8320, 0xF00F_9344, 0xD6D6_A3E8, 0xCB61_B38C, 0x9B64_C2B0, 0x86D3_D2D4, 0xA00A_E278, 0xBDBD_F21C]

  function FourShifts(p: bv64, c: bv64): bv64 {
    Shift1(p, Shift1(p, Shift1(p, Shift1(p, c))))
  }

  lemma FourShiftsIs(p: bv64, c: bv64)
    ensures Shifts(p, 4, c) == FourShifts(p, c)
  {
    hide Shift1, Shifts;
    OneShift(p, 4, c);
    OneShift(p, 3, Shift1(p, c));
    OneShift(p, 2, Shift1(p, Shift1(p, c)));
    OneShift(p, 1, Shift1(p, Shift1(p, Shift1(p, c))));
    NoShifts(p, FourShifts(p, c));
  }

  lemma OneShift(p: bv64, n: nat, c: bv64)
    requires n > 0
    ensures Shifts(p, n, c) == Shifts(p, n - 1, Shift1(p, c))
  {
  }

  /** The sixteen constants are the nibbles shifted four times. */
  lemma NibbleTable(x: bv64)
    requires x <= 15
    ensures (x as nat) < 16 && NIBBLES[x as nat] == FourShifts(POLY32, x)
  {
  }

  lemma NibbleSmall(c: bv64)
    ensures Low4(c) <= 15
  {
  }

  /** One nibble step equals four bit steps. */
  lemma NibbleStep(c: bv64)
    ensures (Low4(c) as nat) < 16
    ensures Shifts(POLY32, 4, c) == Xor(Down4(c), NIBBLES[Low4(c) as nat])
  {
    hide Xor, Shifts, FourShifts, Low4, High4, Down4, NIBBLES;
    NibbleSmall(c);
    LowNibbleApart(c);
    ShiftsLinear(POLY32, 4, High4(c), Low4(c));
    FourPlainShifts(POLY32, High4(c));
    FourShiftsIs(POLY32, Low4(c));
    NibbleTable(Low4(c));
  }

  /** bts_e2e_crc32_update: crc is the final value of the bytes so far. */
  method UpdateCrc32(crc: bv64, data: seq<octet>) returns (r: bv64)
    ensures r == Xor(Continue(POLY32, Xor(crc, ONES32), data), ONES32)
  {
    hide Xor, Wide, Shifts, FeedOctet, Low4, Down4;
    r := Xor(crc, ONES32);
    ghost var start := r;
    for i := 0 to |data|
      invariant r == Continue(POLY32, start, data[..i])
    {
      assert data[..i + 1][..i] == data[..i];
      FeedOctetIs(POLY32, r, data[i]);
      r := Xor(r, Wide(data[i]));
      ShiftsAdd(POLY32, 4, 4, r);
      NibbleStep(r);
      r := Xor(Down4(r), NIBBLES[Low4(r) as nat]);
      NibbleStep(r);
      r := Xor(Down4(r), NIBBLES[Low4(r) as nat]);
    }
    assert data[..|data|] == data;
    r := Xor(r, ONES32);
  }

  /** bts_e2e_crc32. */
  method ComputeCrc32(data: seq<octet>) returns (crc: bv64)
    ensures crc == Crc32(data)
  {
    hide Xor;
    XorZero(ONES32);
    crc := UpdateCrc32(0, data);
  }

  lemma CancelTwice(a: bv64, b: bv64)
    ensures Xor(Xor(a, b), b) == a
  {
    hide Xor;
    XorAssociates(a, b, b);
    XorZero(b);
    XorZero(a);
  }

  /** Updating chunk by chunk gives the CRC of the concatenation. */
  lemma Crc32Chains(a: seq<octet>, b: seq<octet>)
    ensures Xor(Continue(POLY32, Xor(Crc32(a), ONES32), b), ONES32) == Crc32(a + b)
  {
    hide Xor, Continue;
    CancelTwice(Continue(POLY32, ONES32, a), ONES32);
    ContinueConcat(POLY32, ONES32, a, b);
  }

  // ---- detection strength

  /** The error octets as one little-endian word. */
  function ErrorWord(a: seq<octet>, b: seq<octet>): bv64
    requires |a| == |b|
  {
    if a == [] then 0 else Xor(Wide(a[0] ^ b[0]), Up8(ErrorWord(a[1..], b[1..])))
  }

  /** w loses nothing when it moves up by one octet. */
  predicate HasRoom(w: bv64) { Down8(Up8(w)) == w }

  /** w takes at most n octets. */
  ghost predicate Fits(n: nat, w: bv64) {
    if n == 0 then w == 0 else Fits(n - 1, Down8(w))
  }

  lemma FitsUp(d: octet, w: bv64)
    requires HasRoom(w)
    ensures Down8(Xor(Wide(d), Up8(w))) == w
  {
  }

  lemma Down8Zero()
    ensures Down8(0) == 0
  {
  }

  lemma {:induction false} FitsMore(n: nat, m: nat, w: bv64)
    requires n <= m && Fits(n, w)
    ensures Fits(m, w)
  {
    hide Down8;
    Down8Zero();
    if n > 0 {
      FitsMore(n - 1, m - 1, Down8(w));
    } else if m > 0 {
      FitsMore(0, m - 1, Down8(w));
    }
  }

  lemma SevenOctets(w: bv64)
    requires Down8(Down8(Down8(Down8(Down8(Down8(Down8(w))))))) == 0
    ensures HasRoom(w)
  {
  }

  lemma FitsHasRoom(n: nat, w: bv64)
    requires n <= 7 && Fits(n, w)
    ensures HasRoom(w)
  {
    hide Down8, HasRoom;
    FitsMore(n, 7, w);
    var w3 := Down8(Down8(Down8(w)));
    assert Fits(4, w3) by { assert Fits(6, Down8(w)); assert Fits(5, Down8(Down8(w))); }
    assert Fits(2, Down8(Down8(w3))) by { assert Fits(3, Down8(w3)); }
    assert Fits(1, Down8(Down8(Down8(w3))));
    SevenOctets(w);
  }

  lemma FourOctets(w: bv64)
    requires Down8(Down8(Down8(Down8(w)))) == 0
    ensures w >> 32 == 0
  {
  }

  lemma FitsWidth(width: nat, n: nat, w: bv64)
    requires n <= width && (width == 8 || width == 4) && Fits(n, w)
    ensures InWidth(width, w)
  {
    hide Down8;
    FitsMore(n, width, w);
    if width == 4 {
      assert Fits(2, Down8(Down8(w))) by { assert Fits(3, Down8(w)); }
      assert Fits(1, Down8(Down8(Down8(w))));
      FourOctets(w);
    }
  }

  lemma {:induction false} ErrorWordFits(a: seq<octet>, b: seq<octet>)
    requires |a| == |b| <= 8
    ensures Fits(|a|, ErrorWord(a, b))
  {
    hide Down8, Xor, Wide, Up8;
    if a != [] {
      ErrorWordFits(a[1..], b[1..]);
      FitsHasRoom(|a| - 1, ErrorWord(a[1..], b[1..]));
      FitsUp(a[0] ^ b[0], ErrorWord(a[1..], b[1..]));
    }
  }

  lemma XorWide(x: octet, y: octet)
    ensures Wide(x ^ y) == Xor(Wide(x), Wide(y))
  {
  }

  lemma XorOctetZero(x: octet, y: octet)
    ensures Wide(x ^ y) == 0 <==> x == y
  {
  }

  lemma ZeroParts(d: octet, w: bv64)
    requires HasRoom(w) && Xor(Wide(d), Up8(w)) == 0
    ensures Wide(d) == 0 && w == 0
  {
  }

  lemma Up8Low(w: bv64)
    ensures Low8(Up8(w)) == 0
  {
  }

  lemma Step8OfUp8(p: bv64, w: bv64)
    requires HasRoom(w)
    ensures Step8(p, Up8(w)) == w
  {
    hide Shifts, Low8, Up8, Down8;
    Up8Low(w);
    EightPlainShifts(p, Up8(w));
  }

  /** No error word, no error. */
  lemma {:induction false} ErrorWordZero(a: seq<octet>, b: seq<octet>)
    requires |a| == |b| <= 8 && ErrorWord(a, b) == 0
    ensures a == b
  {
    hide Xor, Wide, Up8, Down8;
    if a != [] {
      var w := ErrorWord(a[1..], b[1..]);
      ErrorWordFits(a[1..], b[1..]);
      FitsHasRoom(|a| - 1, w);
      ZeroParts(a[0] ^ b[0], w);
      XorOctetZero(a[0], b[0]);
      ErrorWordZero(a[1..], b[1..]);
      assert a == [a[0]] + a[1..] && b == [b[0]] + b[1..];
    }
  }

  lemma {:induction false} ContinueConcat(p: bv64, r: bv64, a: seq<octet>, b: seq<octet>)
    ensures Continue(p, r, a + b) == Continue(p, Continue(p, r, a), b)
    decreases |b|
  {
    hide FeedOctet;
    if b == [] {
      assert a + b == a;
    } else {
      ContinueConcat(p, r, a, b[..|b| - 1]);
      assert (a + b)[..|a + b| - 1] == a + b[..|b| - 1];
    }
  }

  lemma ContinueFront(p: bv64, r: bv64, data: seq<octet>)
    requires data != []
    ensures Continue(p, r, data) == Continue(p, FeedOctet(p, r, data[0]), data[1..])
  {
    hide FeedOctet;
    ContinueConcat(p, r, [data[0]], data[1..]);
    assert [data[0]] + data[1..] == data;
    assert Continue(p, r, [data[0]]) == FeedOctet(p, Continue(p, r, []), data[0]) by { assert [data[0]][..0] == []; }
  }

  lemma {:induction false} ContinueWidth(width: nat, p: bv64, r: bv64, data: seq<octet>)
    requires IsCode(width, p) && InWidth(width, r)
    ensures InWidth(width, Continue(p, r, data))
    decreases |data|
  {
    hide IsCode, InWidth, Xor, Wide, FeedOctet, Shifts;
    if data != [] {
      var n := |data| - 1;
      ContinueWidth(width, p, r, data[..n]);
      FeedOctetIs(p, Continue(p, r, data[..n]), data[n]);
      OctetWidth(width, data[n]);
      XorWidth(width, Continue(p, r, data[..n]), Wide(data[n]));
      ShiftsInjective(width, p, 8, Xor(Continue(p, r, data[..n]), Wide(data[n])));
    }
  }

  function Steps(p: bv64, n: nat, c: bv64): bv64 {
    if n == 0 then c else Steps(p, n - 1, Step8(p, c))
  }

  /** One octet each into two registers: the difference of the results. */
  lemma StepDifference(p: bv64, r: bv64, s: bv64, x: octet, y: octet)
    ensures Xor(FeedOctet(p, r, x), FeedOctet(p, s, y)) == Step8(p, Xor(Xor(r, s), Wide(x ^ y)))
  {
    hide Xor, Wide, FeedOctet, Shifts;
    FeedOctetIs(p, r, x);
    FeedOctetIs(p, s, y);
    ShiftsLinear(p, 8, Xor(r, Wide(x)), Xor(s, Wide(y)));
    XorPairs(r, s, Wide(x), Wide(y));
    XorWide(x, y);
  }

  lemma Step8Linear(p: bv64, a: bv64, b: bv64)
    ensures Step8(p, Xor(a, b)) == Xor(Step8(p, a), Step8(p, b))
  {
    hide Xor, Shifts;
    ShiftsLinear(p, 8, a, b);
  }

  /** Over a window of at most eight octets, the error word moves through the
      register on top of the difference that was there before. */
  lemma {:induction false} WindowDifference(p: bv64, r: bv64, s: bv64, a: seq<octet>, b: seq<octet>)
    requires |a| == |b| <= 8
    ensures Xor(Continue(p, r, a), Continue(p, s, b)) == Steps(p, |a|, Xor(Xor(r, s), ErrorWord(a, b)))
    decreases |a|
  {
    hide Xor, Wide, FeedOctet, Step8, Up8, HasRoom, Fits;
    if a == [] {
      XorZero(Xor(r, s));
    } else {
      var w, d, e := ErrorWord(a[1..], b[1..]), Xor(r, s), Wide(a[0] ^ b[0]);
      ErrorWordFits(a[1..], b[1..]);
      FitsHasRoom(|a| - 1, w);
      XorAssociates(d, e, Up8(w));
      Step8Linear(p, Xor(d, e), Up8(w));
      Step8OfUp8(p, w);
      StepDifference(p, r, s, a[0], b[0]);
      ContinueFront(p, r, a);
      ContinueFront(p, s, b);
      WindowDifference(p, FeedOctet(p, r, a[0]), FeedOctet(p, s, b[0]), a[1..], b[1..]);
    }
  }

  lemma {:induction false} StepsInjective(width: nat, p: bv64, n: nat, c: bv64)
    requires IsCode(width, p) && InWidth(width, c)
    ensures Steps(p, n, c) == 0 ==> c == 0
    decreases n
  {
    hide Shifts, IsCode, InWidth;
    if n > 0 {
      ShiftsInjective(width, p, 8, c);
      StepsInjective(width, p, n - 1, Step8(p, c));
    }
  }

  /** Equal octets never cancel a register difference. */
  lemma {:induction false} DifferenceLasts(width: nat, p: bv64, r: bv64, s: bv64, data: seq<octet>)
    requires IsCode(width, p) && InWidth(width, r) && InWidth(width, s) && r != s
    ensures Continue(p, r, data) != Continue(p, s, data)
    decreases |data|
  {
    hide Xor, Wide, FeedOctet, Shifts, IsCode, InWidth;
    if data != [] {
      var n := |data| - 1;
      var r', s' := Continue(p, r, data[..n]), Continue(p, s, data[..n]);
      DifferenceLasts(width, p, r, s, data[..n]);
      ContinueWidth(width, p, r, data[..n]);
      ContinueWidth(width, p, s, data[..n]);
      StepDifference(p, r', s', data[n], data[n]);
      XorOctetZero(data[n], data[n]);
      XorZero(Xor(r', s'));
      XorWidth(width, r', s');
      ShiftsInjective(width, p, 8, Xor(r', s'));
      XorIsZero(r', s');
      XorIsZero(FeedOctet(p, r', data[n]), FeedOctet(p, s', data[n]));
    }
  }

  /** Main result: any change confined to as many consecutive octets as the
      register is wide changes the register, whatever surrounds it. */
  lemma DetectsBurst(width: nat, p: bv64, ones: bv64, prefix: seq<octet>, a: seq<octet>, b: seq<octet>, suffix: seq<octet>)
    requires IsCode(width, p) && InWidth(width, ones)
    requires |a| == |b| <= width && a != b
    ensures Continue(p, ones, prefix + a + suffix) != Continue(p, ones, prefix + b + suffix)
  {
    hide Xor, Wide, Continue, ErrorWord, Steps, InWidth, Fits;
    var r := Continue(p, ones, prefix);
    ContinueWidth(width, p, ones, prefix);
    ContinueConcat(p, ones, prefix, a);
    ContinueConcat(p, ones, prefix, b);
    ContinueConcat(p, ones, prefix + a, suffix);
    ContinueConcat(p, ones, prefix + b, suffix);
    var w := ErrorWord(a, b);
    ErrorWordFits(a, b);
    FitsWidth(width, |a|, w);
    WindowDifference(p, r, r, a, b);
    XorZero(r);
    XorZero(w);
    StepsInjective(width, p, |a|, w);
    if w == 0 { ErrorWordZero(a, b); }
    XorIsZero(Continue(p, r, a), Continue(p, r, b));
    ContinueWidth(width, p, r, a);
    ContinueWidth(width, p, r, b);
    DifferenceLasts(width, p, Continue(p, r, a), Continue(p, r, b), suffix);
  }

  lemma SameFinalXor(r: bv64, s: bv64, ones: bv64)
    requires r != s
    ensures Xor(r, ones) != Xor(s, ones)
  {
    hide Xor;
    CancelTwice(r, ones);
    CancelTwice(s, ones);
  }

  /** CRC-64 detects every change within eight consecutive octets... */
  lemma Crc64DetectsBurst(prefix: seq<octet>, a: seq<octet>, b: seq<octet>, suffix: seq<octet>)
    requires |a| == |b| <= 8 && a != b
    ensures Crc64(prefix + a + suffix) != Crc64(prefix + b + suffix)
  {
    hide Xor, Continue;
    DetectsBurst(8, POLY64, ONES64, prefix, a, b, suffix);
    SameFinalXor(Continue(POLY64, ONES64, prefix + a + suffix), Continue(POLY64, ONES64, prefix + b + suffix), ONES64);
  }

  /** ...and CRC-32 within four. */
  lemma Crc32DetectsBurst(prefix: seq<octet>, a: seq<octet>, b: seq<octet>, suffix: seq<octet>)
    requires |a| == |b| <= 4 && a != b
    ensures Crc32(prefix + a + suffix) != Crc32(prefix + b + suffix)
  {
    hide Xor, Continue;
    DetectsBurst(4, POLY32, ONES32, prefix, a, b, suffix);
    SameFinalXor(Continue(POLY32, ONES32, prefix + a + suffix), Continue(POLY32, ONES32, prefix + b + suffix), ONES32);
  }

  /** The 32-bit register and the CRC-32 stay 32 bits wide. */
  lemma Crc32Width(data: seq<octet>)
    ensures Crc32(data) <= 0xFFFF_FFFF
  {
    hide Continue;
    ContinueWidth(4, POLY32, ONES32, data);
  }

  // ---- check values

  /** The nine octets "123456789". */
  const DIGITS: seq<octet> := [0x31, 0x32, 0x33, 0x34, 0x35, 0x36, 0x37, 0x38, 0x39]

  function EightShifts(p: bv64, c: bv64): bv64 { FourShifts(p, FourShifts(p, c)) }

  lemma EightShiftsIs(p: bv64, c: bv64)
    ensures Shifts(p, 8, c) == EightShifts(p, c)
  {
    hide FourShifts, Shifts;
    ShiftsAdd(p, 4, 4, c);
    FourShiftsIs(p, c);
    FourShiftsIs(p, FourShifts(p, c));
  }

  /** These are the registers before and after each octet. */
  ghost predicate AreRegisters(p: bv64, data: seq<octet>, registers: seq<bv64>) {
    && |registers| == |data| + 1
    && forall i :: 0 <= i < |data| ==> IsNext(p, registers[i], data[i], registers[i + 1])
  }

  predicate IsNext(p: bv64, c: bv64, b: octet, next: bv64) {
    next == EightShifts(p, Xor(c, Wide(b)))
  }

  lemma {:induction false} LastRegister(p: bv64, data: seq<octet>, registers: seq<bv64>)
    requires AreRegisters(p, data, registers)
    ensures Continue(p, registers[0], data) == registers[|data|]
  {
    hide FeedOctet, Shifts, EightShifts, Xor, Wide;
    if data != [] {
      var n := |data| - 1;
      LastRegister(p, data[..n], registers[..n + 1]);
      FeedOctetIs(p, registers[n], data[n]);
      EightShiftsIs(p, Xor(registers[n], Wide(data[n])));
      assert IsNext(p, registers[n], data[n], registers[n + 1]);
    }
  }

  const REGISTERS64: seq<bv64> :=
    [0xFFFF_FFFF_FFFF_FFFF, 0xD5D0_F17A_6B6A_3512, 0xFBE2_9281_D80D_A6A7, 0xCFDC_D7BB_F8E3_3A9E,
     0x31B1_786C_9947_3CD7, 0xA258_B900_5AFB_A316, 0xFB95_1AC9_A23C_3731, 0x8FAF_60C9_9E6D_C25F,
     0xA374_7FB7_D453_87F6, 0x66A2_3644_20E6_C605]

  const REGISTERS32: seq<bv64> :=
    [0xFFFF_FFFF, 0x7C23_1048, 0xB0AC_BB32, 0x77B7_9C2D, 0x641C_1F5C, 0x340A_C5E3,
     0xF68D_2C9E, 0xAFFC_9660, 0x651F_2550, 0x340B_C6D9]

  lemma Registers64First()
    ensures forall i :: 0 <= i < 3 ==> IsNext(POLY64, REGISTERS64[i], DIGITS[i], REGISTERS64[i + 1])
  {
  }

  lemma Registers64Middle()
    ensures forall i :: 3 <= i < 6 ==> IsNext(POLY64, REGISTERS64[i], DIGITS[i], REGISTERS64[i + 1])
  {
  }

  lemma Registers64Last()
    ensures forall i :: 6 <= i < 9 ==> IsNext(POLY64, REGISTERS64[i], DIGITS[i], REGISTERS64[i + 1])
  {
  }

  lemma Registers64Follow()
    ensures AreRegisters(POLY64, DIGITS, REGISTERS64)
  {
    hide IsNext;
    Registers64First();
    Registers64Middle();
    Registers64Last();
  }

  lemma Registers32First()
    ensures forall i :: 0 <= i < 3 ==> IsNext(POLY32, REGISTERS32[i], DIGITS[i], REGISTERS32[i + 1])
  {
  }

  lemma Registers32Middle()
    ensures forall i :: 3 <= i < 6 ==> IsNext(POLY32, REGISTERS32[i], DIGITS[i], REGISTERS32[i + 1])
  {
  }

  lemma Registers32Last()
    ensures forall i :: 6 <= i < 9 ==> IsNext(POLY32, REGISTERS32[i], DIGITS[i], REGISTERS32[i + 1])
  {
  }

  lemma Registers32Follow()
    ensures AreRegisters(POLY32, DIGITS, REGISTERS32)
  {
    hide IsNext;
    Registers32First();
    Registers32Middle();
    Registers32Last();
  }

  /** The catalogued check values, which fix polynomial, bit order, initial
      value and final inversion of both CRCs. */
  lemma CheckValues()
    ensures Crc64([0x31, 0x32, 0x33, 0x34, 0x35, 0x36, 0x37, 0x38, 0x39]) == 0x995D_C9BB_DF19_39FA
    ensures Crc32([0x31, 0x32, 0x33, 0x34, 0x35, 0x36, 0x37, 0x38, 0x39]) == 0xCBF4_3926
  {
    hide Continue, AreRegisters;
    Registers64Follow();
    Registers32Follow();
    LastRegister(POLY64, DIGITS, REGISTERS64);
    LastRegister(POLY32, DIGITS, REGISTERS32);
  }
}
