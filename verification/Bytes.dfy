/** Octets, and the fixed-width words that the wire formats are made of.
    A word is a natural number below 256^n; the two byte orders are defined
    once here and every codec of the project is built from them. */
module Bytes {

  type byte = x: nat | x < 256

  datatype Option<+T> = None | Some(value: T)

  /** 256 to the power n: the number of words of n bytes. */
  function Capacity(n: nat): (c: nat)
    ensures c > 0
  {
    if n == 0 then 1 else 256 * Capacity(n - 1)
  }

  /** The word a little-endian field stands for. */
  function FromLe(s: seq<byte>): (w: nat)
    ensures w < Capacity(|s|)
  {
    if s == [] then 0 else s[0] + 256 * FromLe(s[1..])
  }

  /** The n-byte little-endian field of a word (its low n bytes). */
  function ToLe(n: nat, w: nat): (s: seq<byte>)
    ensures |s| == n
  {
    if n == 0 then [] else [w % 256] + ToLe(n - 1, w / 256)
  }

  function Reverse(s: seq<byte>): (r: seq<byte>)
    ensures |r| == |s|
    ensures forall k :: 0 <= k < |s| ==> r[k] == s[|s| - 1 - k]
  {
    seq(|s|, k requires 0 <= k < |s| => s[|s| - 1 - k])
  }

  /** The word a big-endian field stands for. */
  function FromBe(s: seq<byte>): (w: nat)
    ensures w < Capacity(|s|)
  {
    FromLe(Reverse(s))
  }

  /** The n-byte big-endian field of a word. */
  function ToBe(n: nat, w: nat): (s: seq<byte>)
    ensures |s| == n
  {
    Reverse(ToLe(n, w))
  }

  lemma {:induction false} LeFieldOfWord(n: nat, w: nat)
    requires w < Capacity(n)
    ensures FromLe(ToLe(n, w)) == w
  {
    if n > 0 {
      LeFieldOfWord(n - 1, w / 256);
      assert ToLe(n, w)[1..] == ToLe(n - 1, w / 256);
    }
  }

  lemma {:induction false} WordOfLeField(s: seq<byte>)
    ensures ToLe(|s|, FromLe(s)) == s
  {
    if s != [] {
      WordOfLeField(s[1..]);
      assert s == [s[0]] + s[1..];
      assert FromLe(s) % 256 == s[0] && FromLe(s) / 256 == FromLe(s[1..]);
    }
  }

  lemma BeFieldOfWord(n: nat, w: nat)
    requires w < Capacity(n)
    ensures FromBe(ToBe(n, w)) == w
  {
    assert Reverse(Reverse(ToLe(n, w))) == ToLe(n, w);
    LeFieldOfWord(n, w);
  }

  lemma WordOfBeField(s: seq<byte>)
    ensures ToBe(|s|, FromBe(s)) == s
  {
    WordOfLeField(Reverse(s));
    assert Reverse(Reverse(s)) == s;
  }

  // ---- the two byte orders, written out

  function Pair(high: nat, low: nat): nat {
    0x100 * high + low
  }

  function Quad(a: nat, b: nat, c: nat, d: nat): nat {
    0x100_0000 * a + 0x1_0000 * b + 0x100 * c + d
  }

  /** The little-endian numbers at an offset. */
  function Le16(p: seq<byte>, at: nat): nat
    requires at + 2 <= |p|
  {
    Pair(p[at + 1], p[at])
  }

  function Le32(p: seq<byte>, at: nat): nat
    requires at + 4 <= |p|
  {
    Quad(p[at + 3], p[at + 2], p[at + 1], p[at])
  }

  function Le64(p: seq<byte>, at: nat): nat
    requires at + 8 <= |p|
  {
    Le32(p, at) + 0x1_0000_0000 * Le32(p, at + 4)
  }

  lemma FieldsRead(p: seq<byte>, at: nat)
    ensures at + 2 <= |p| ==> FromLe(p[at..at + 2]) == Le16(p, at)
    ensures at + 4 <= |p| ==> FromLe(p[at..at + 4]) == Le32(p, at)
    ensures at + 8 <= |p| ==> FromLe(p[at..at + 8]) == Le64(p, at)
  {
    hide FromLe, Quad, Pair, Shifted;
    if at + 2 <= |p| { LittleEndian(p[at..at + 2]); }
    if at + 4 <= |p| { LittleEndian(p[at..at + 4]); }
    if at + 8 <= |p| {
      LittleEndian(p[at + 4..at + 8]);
      FromLeConcat(p[at..at + 4], p[at + 4..at + 8]);
      assert p[at..at + 4] + p[at + 4..at + 8] == p[at..at + 8];
      FourUp(Le32(p, at + 4));
    }
  }

  lemma FourUp(w: nat)
    ensures Shifted(4, w) == 0x1_0000_0000 * w
  {
    assert Shifted(2, w) == 0x1_0000 * w by { assert Shifted(1, w) == 0x100 * w; }
    assert Shifted(3, w) == 0x100_0000 * w;
  }

  lemma LittleEndian(s: seq<byte>)
    ensures |s| == 2 ==> FromLe(s) == Pair(s[1], s[0])
    ensures |s| == 4 ==> FromLe(s) == Quad(s[3], s[2], s[1], s[0])
  {
    if |s| == 2 || |s| == 4 {
      TwoLittle(s[|s| - 2..]);
      if |s| == 4 { assert s[1..][1..] == s[2..]; }
    }
  }

  lemma TwoLittle(s: seq<byte>)
    requires |s| == 2
    ensures FromLe(s) == Pair(s[1], s[0])
  {
    assert s[1..][1..] == [];
  }

  lemma BigEndian(s: seq<byte>)
    ensures |s| == 2 ==> FromBe(s) == Pair(s[0], s[1])
    ensures |s| == 4 ==> FromBe(s) == Quad(s[0], s[1], s[2], s[3])
  {
    hide FromLe;
    LittleEndian(Reverse(s));
  }

  lemma OneWordBothWays()
    ensures FromBe([0x12, 0x34, 0x56, 0x78]) == 0x1234_5678 && FromLe([0x12, 0x34, 0x56, 0x78]) == 0x7856_3412
  {
    hide FromBe, FromLe;
    BigEndian([0x12, 0x34, 0x56, 0x78]);
    LittleEndian([0x12, 0x34, 0x56, 0x78]);
  }

  /** A word moved up by n bytes. */
  function Shifted(n: nat, w: nat): nat {
    if n == 0 then w else 256 * Shifted(n - 1, w)
  }

  lemma {:induction false} FromLeConcat(a: seq<byte>, b: seq<byte>)
    ensures FromLe(a + b) == FromLe(a) + Shifted(|a|, FromLe(b))
  {
    if a == [] {
      assert a + b == b;
    } else {
      assert (a + b)[1..] == a[1..] + b;
      FromLeConcat(a[1..], b);
    }
  }

  lemma FromBeConcat(a: seq<byte>, b: seq<byte>)
    ensures FromBe(a + b) == FromBe(b) + Shifted(|b|, FromBe(a))
  {
    hide Reverse, FromLe, Shifted;
    ReverseConcat(a, b);
    FromLeConcat(Reverse(b), Reverse(a));
  }

  lemma ReverseConcat(a: seq<byte>, b: seq<byte>)
    ensures Reverse(a + b) == Reverse(b) + Reverse(a)
  {
  }
}
