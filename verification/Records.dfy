/** Lists of fixed-layout records inside a little-endian payload. */
module Records {
  import opened Bytes

  /** A raw 32-bit field: an integer, or the bit pattern of a float. */
  type u32 = x: nat | x < 0x1_0000_0000
  type u16 = x: nat | x < 0x1_0000

  /** n bytes from offset off. */
  function Cut(p: seq<byte>, off: nat, n: nat): (s: seq<byte>)
    requires off + n <= |p|
    ensures |s| == n
  {
    p[off..off + n]
  }

  function Word(p: seq<byte>, off: nat): u32
    requires off + 4 <= |p|
  {
    assert Capacity(2) == 0x1_0000 && Capacity(4) == 0x1_0000_0000;
    FromLe(Cut(p, off, 4))
  }

  function HalfWord(p: seq<byte>, off: nat): u16
    requires off + 2 <= |p|
  {
    assert Capacity(2) == 0x1_0000;
    FromLe(Cut(p, off, 2))
  }

  /** Four bytes of the payload are the wire form of the word read there. */
  lemma WordBack(p: seq<byte>, off: nat)
    requires off + 4 <= |p|
    ensures ToLe(4, Word(p, off)) == p[off..off + 4]
  {
    WordOfLeField(Cut(p, off, 4));
  }

  lemma HalfWordBack(p: seq<byte>, off: nat)
    requires off + 2 <= |p|
    ensures ToLe(2, HalfWord(p, off)) == p[off..off + 2]
  {
    WordOfLeField(Cut(p, off, 2));
  }

  lemma NumbersRead(p: seq<byte>, off: nat)
    ensures off + 2 <= |p| ==> HalfWord(p, off) == Le16(p, off)
    ensures off + 4 <= |p| ==> Word(p, off) == Le32(p, off)
  {
    hide FromLe, Le16, Le32;
    FieldsRead(p, off);
  }

  lemma WordInjective(x: u32, y: u32)
    requires ToLe(4, x) == ToLe(4, y)
    ensures x == y
  {
    assert Capacity(2) == 0x1_0000 && Capacity(4) == 0x1_0000_0000;
    LeFieldOfWord(4, x);
    LeFieldOfWord(4, y);
  }

  lemma HalfWordInjective(x: u16, y: u16)
    requires ToLe(2, x) == ToLe(2, y)
    ensures x == y
  {
    assert Capacity(2) == 0x1_0000;
    LeFieldOfWord(2, x);
    LeFieldOfWord(2, y);
  }

  lemma ConcatInjective(a: seq<byte>, b: seq<byte>, c: seq<byte>, d: seq<byte>)
    requires a + b == c + d && |a| == |c|
    ensures a == c && b == d
  {
    assert a == (a + b)[..|a|] && c == (c + d)[..|a|];
    assert b == (a + b)[|a|..] && d == (c + d)[|a|..];
  }

  lemma TailInjective(a: seq<byte>, b: seq<byte>, c: seq<byte>, d: seq<byte>)
    requires a + b == c + d && |b| == |d|
    ensures a == c && b == d
  {
    assert |a| == |c|;
    ConcatInjective(a, b, c, d);
  }

  /** The words of a record, in wire order. */
  function EncodeWords(ws: seq<u32>): (s: seq<byte>)
    ensures |s| == 4 * |ws|
  {
    if ws == [] then [] else EncodeWords(ws[..|ws| - 1]) + ToLe(4, ws[|ws| - 1])
  }

  function DecodeWords(p: seq<byte>, off: nat, n: nat): (ws: seq<u32>)
    requires off + 4 * n <= |p|
    ensures |ws| == n
  {
    if n == 0 then [] else DecodeWords(p, off, n - 1) + [Word(p, off + 4 * (n - 1))]
  }

  lemma WordsBack(p: seq<byte>, off: nat, n: nat)
    requires off + 4 * n <= |p|
    ensures EncodeWords(DecodeWords(p, off, n)) == p[off..off + 4 * n]
  {
    hide EncodeWords, DecodeWords;
    WordsOfCut(p, off, n);
  }

  lemma {:induction false} WordsOfCut(p: seq<byte>, off: nat, n: nat)
    requires off + 4 * n <= |p|
    ensures EncodeWords(DecodeWords(p, off, n)) == Cut(p, off, 4 * n)
  {
    hide Word, ToLe, Cut;
    if n == 0 {
      CutNothing(p, off);
    } else {
      var last := off + 4 * (n - 1);
      EncodeWordsSnoc(DecodeWords(p, off, n - 1), Word(p, last));
      WordsOfCut(p, off, n - 1);
      WordIsCut(p, last);
      CutOnwards(p, off, 4 * (n - 1), 4);
    }
  }

  lemma WordIsCut(p: seq<byte>, off: nat)
    requires off + 4 <= |p|
    ensures ToLe(4, Word(p, off)) == Cut(p, off, 4)
  {
    hide Word, ToLe;
    WordBack(p, off);
  }

  lemma CutNothing(p: seq<byte>, off: nat)
    requires off <= |p|
    ensures Cut(p, off, 0) == []
  {
  }

  lemma CutOnwards(p: seq<byte>, off: nat, n: nat, m: nat)
    requires off + n + m <= |p|
    ensures Cut(p, off, n) + Cut(p, off + n, m) == Cut(p, off, n + m)
  {
  }

  lemma EncodeWordsSnoc(ws: seq<u32>, w: u32)
    ensures EncodeWords(ws + [w]) == EncodeWords(ws) + ToLe(4, w)
  {
    hide ToLe;
    assert (ws + [w])[..|ws|] == ws;
  }

  lemma TwoWords(p: seq<byte>, off: nat)
    requires off + 8 <= |p|
    ensures DecodeWords(p, off, 2) == [Word(p, off), Word(p, off + 4)]
  {
    hide Word;
    assert DecodeWords(p, off, 1) == [Word(p, off)] by { assert DecodeWords(p, off, 0) == []; }
  }

  lemma FourWords(p: seq<byte>, off: nat)
    requires off + 16 <= |p|
    ensures DecodeWords(p, off, 4) == [Word(p, off), Word(p, off + 4), Word(p, off + 8), Word(p, off + 12)]
  {
    hide Word;
    TwoWords(p, off);
    assert DecodeWords(p, off, 3) == DecodeWords(p, off, 2) + [Word(p, off + 8)];
  }

  lemma EightWords(p: seq<byte>, off: nat)
    requires off + 32 <= |p|
    ensures DecodeWords(p, off, 8) == [Word(p, off), Word(p, off + 4), Word(p, off + 8), Word(p, off + 12),
                                       Word(p, off + 16), Word(p, off + 20), Word(p, off + 24), Word(p, off + 28)]
  {
    hide Word;
    FourWords(p, off);
    assert DecodeWords(p, off, 5) == DecodeWords(p, off, 4) + [Word(p, off + 16)];
    assert DecodeWords(p, off, 6) == DecodeWords(p, off, 5) + [Word(p, off + 20)];
    assert DecodeWords(p, off, 7) == DecodeWords(p, off, 6) + [Word(p, off + 24)];
  }

  lemma ThreeWords(p: seq<byte>, off: nat)
    requires off + 12 <= |p|
    ensures DecodeWords(p, off, 3) == [Word(p, off), Word(p, off + 4), Word(p, off + 8)]
  {
    hide Word;
    TwoWords(p, off);
  }

  lemma {:induction false} WordsInjective(a: seq<u32>, b: seq<u32>)
    requires EncodeWords(a) == EncodeWords(b)
    ensures a == b
  {
    assert |a| == |b|;
    if a != [] {
      var n := |a| - 1;
      TailInjective(EncodeWords(a[..n]), ToLe(4, a[n]), EncodeWords(b[..n]), ToLe(4, b[n]));
      WordInjective(a[n], b[n]);
      WordsInjective(a[..n], b[..n]);
      assert a == a[..n] + [a[n]] && b == b[..n] + [b[n]];
    }
  }

  // ---- lists of records

  /** The records of a list one after the other. */
  function EncodeAll<T>(enc: T -> seq<byte>, xs: seq<T>): seq<byte> {
    if xs == [] then [] else EncodeAll(enc, xs[..|xs| - 1]) + enc(xs[|xs| - 1])
  }

  lemma EncodeAllSnoc<T>(enc: T -> seq<byte>, xs: seq<T>, x: T)
    ensures EncodeAll(enc, xs + [x]) == EncodeAll(enc, xs) + enc(x)
  {
    assert (xs + [x])[..|xs|] == xs;
  }

  lemma {:induction false} EncodeAllSize<T(!new)>(enc: T -> seq<byte>, size: nat, xs: seq<T>)
    requires forall x :: |enc(x)| == size
    ensures |EncodeAll(enc, xs)| == |xs| * size
  {
    if xs != [] {
      EncodeAllSize(enc, size, xs[..|xs| - 1]);
      assert |xs| * size == (|xs| - 1) * size + size;
    }
  }

  /** Record i of a list stands size * i bytes after its start. */
  lemma {:induction false} EncodeAllAt<T(!new)>(enc: T -> seq<byte>, size: nat, xs: seq<T>, i: nat)
    requires (forall x :: |enc(x)| == size) && i < |xs|
    ensures size * i + size <= |EncodeAll(enc, xs)|
    ensures Cut(EncodeAll(enc, xs), size * i, size) == enc(xs[i])
  {
    hide Cut;
    var n := |xs| - 1;
    EncodeAllSize(enc, size, xs[..n]);
    if i == n {
      assert size * n == n * size;
      CutLast(EncodeAll(enc, xs[..n]), enc(xs[n]));
    } else {
      EncodeAllAt(enc, size, xs[..n], i);
      CutEarlier(EncodeAll(enc, xs[..n]), enc(xs[n]), size * i, size);
    }
  }

  lemma CutLast(a: seq<byte>, b: seq<byte>)
    ensures Cut(a + b, |a|, |b|) == b
  {
  }

  lemma CutEarlier(a: seq<byte>, b: seq<byte>, off: nat, n: nat)
    requires off + n <= |a|
    ensures Cut(a + b, off, n) == Cut(a, off, n)
  {
  }

  lemma {:induction false} EncodeAllInjective<T(!new)>(enc: T -> seq<byte>, size: nat, a: seq<T>, b: seq<T>)
    requires forall x :: |enc(x)| == size
    requires forall x, y :: enc(x) == enc(y) ==> x == y
    requires |a| == |b| && EncodeAll(enc, a) == EncodeAll(enc, b)
    ensures a == b
  {
    if a != [] {
      var n := |a| - 1;
      TailInjective(EncodeAll(enc, a[..n]), enc(a[n]), EncodeAll(enc, b[..n]), enc(b[n]));
      EncodeAllInjective(enc, size, a[..n], b[..n]);
      assert a == a[..n] + [a[n]] && b == b[..n] + [b[n]];
    }
  }
}
