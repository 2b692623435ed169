/**
  The encoding by blocks, as section 4 of RFC 4648 defines it: 24-bit groups of three octets, cut into
  four sextets; the bit strings of `Base64` come to the same.
 */
module Base64Blocks {
  import opened Base64

  const UPPER := "ABCDEFGHIJKLMNOPQRSTUVWXYZ"
  const LOWER := "abcdefghijklmnopqrstuvwxyz"
  const OTHERS := "0123456789-_"
  const ALPHABET := UPPER + LOWER + OTHERS

  /** The alphabet is that of section 5, in its order. */
  lemma AlphabetIs(i: Sextet)
    ensures CharOf(i) == ALPHABET[i] as int
  {
    if i < 26 {
      assert ALPHABET[i] == UPPER[i];
    } else if i < 52 {
      assert ALPHABET[i] == LOWER[i - 26];
    } else {
      assert ALPHABET[i] == OTHERS[i - 52];
    }
  }

  /** The octet at `i`, or the zero bits that fill up the last group. */
  function OctetAt(source: seq<Octet>, i: nat): Octet { if i < |source| then source[i] else 0 }

  /** The k-th group of three octets as a 24-bit number. */
  function Block(source: seq<Octet>, k: nat): int {
    65536 * OctetAt(source, 3 * k) + 256 * OctetAt(source, 3 * k + 1) + OctetAt(source, 3 * k + 2)
  }

  lemma {:induction false} GroupBitsConcat(a: seq<int>, b: seq<int>, width: nat)
    ensures GroupBits(a + b, width) == GroupBits(a, width) + GroupBits(b, width)
    decreases |b|
  {
    if b == [] {
      assert a + b == a;
    } else {
      var n := |b| - 1;
      GroupBitsConcat(a, b[..n], width);
      assert a + b == a + b[..n] + [b[n]] && b == b[..n] + [b[n]];
      GroupBitsSnoc(a + b[..n], b[n], width);
      GroupBitsSnoc(b[..n], b[n], width);
      Associative(GroupBits(a, width), GroupBits(b[..n], width), Bits(b[n], width));
    }
  }

  lemma Associative(x: seq<bool>, y: seq<bool>, z: seq<bool>)
    ensures x + (y + z) == x + y + z
  {
  }

  lemma Middle(x: seq<bool>, y: seq<bool>, z: seq<bool>)
    ensures (x + y + z)[|x|..|x| + |y|] == y
  {
  }

  /** The bits of some groups in the middle. */
  lemma GroupsAt(groups: seq<int>, width: nat, i: nat, n: nat)
    requires i + n <= |groups|
    ensures var x, y := |GroupBits(groups[..i], width)|, |GroupBits(groups[i..i + n], width)|;
      && x + y <= |GroupBits(groups, width)|
      && GroupBits(groups, width)[x..x + y] == GroupBits(groups[i..i + n], width)
  {
    var a, b, c := groups[..i], groups[i..i + n], groups[i + n..];
    assert groups == a + b + c;
    GroupBitsConcat(a + b, c, width);
    GroupBitsConcat(a, b, width);
    Middle(GroupBits(a, width), GroupBits(b, width), GroupBits(c, width));
  }

  lemma OneGroup(g: int, width: nat)
    ensures GroupBits([g], width) == Bits(g, width)
  {
    var none: seq<int> := [];
    GroupBitsSnoc(none, g, width);
    assert none + [g] == [g] && GroupBits(none, width) + Bits(g, width) == Bits(g, width);
  }

  lemma BlockBits(a: Octet, b: Octet, c: Octet)
    ensures Bits(65536 * a + 256 * b + c, 24) == Bits(a, 8) + Bits(b, 8) + Bits(c, 8)
  {
    assert Pow2(8) == 256 by { PowersOfTwo(); }
    BitsOfConcatenation(a, b, 8, 8);
    BitsOfConcatenation(256 * a + b, c, 16, 8);
  }

  /** The sextet at place `p` of a 24-bit group. */
  lemma SextetBits(v: int, p: nat)
    requires p < 4
    ensures Bits(v, 24)[6 * p..6 * p + 6] == Bits((v / Pow2(18 - 6 * p)) % 64, 6)
  {
    var lo := 18 - 6 * p;
    BitsSplit(v, 6 * p, lo + 6);
    TopSextet(v, lo);
    assert Bits(v, 24)[6 * p..] == Bits(v, lo + 6);
    assert Bits(v, 24)[6 * p..][..6] == Bits((v / Pow2(lo)) % 64, 6);
  }

  lemma PaddedBits(source: seq<Octet>, e: seq<Octet>)
    requires IsEncoding(source, e)
    ensures 6 * |e| <= 8 * |source| + 16
    ensures GroupBits(Indices(e), 6) == GroupBits(source + [0] + [0], 8)[..6 * |e|]
  {
    GroupBitsSnoc(source, 0, 8);
    GroupBitsSnoc(source + [0], 0, 8);
    BitsOfZero(8);
    var bits, n := GroupBits(source, 8), 6 * |e| - 8 * |source|;
    assert GroupBits(source + [0] + [0], 8) == bits + (Zeros(8) + Zeros(8));
    assert (Zeros(8) + Zeros(8))[..n] == Zeros(n);
    assert (bits + (Zeros(8) + Zeros(8)))[..6 * |e|] == bits + (Zeros(8) + Zeros(8))[..n];
  }

  lemma BlockInside(source: seq<Octet>, k: nat)
    requires 3 * k < |source|
    ensures 24 * k + 24 <= |GroupBits(source + [0] + [0], 8)|
    ensures GroupBits(source + [0] + [0], 8)[24 * k..24 * k + 24] == Bits(Block(source, k), 24)
  {
    var all := source + [0] + [0];
    var a, b, c := OctetAt(source, 3 * k), OctetAt(source, 3 * k + 1), OctetAt(source, 3 * k + 2);
    assert all[3 * k..3 * k + 3] == [a] + [b] + [c];
    GroupsAt(all, 8, 3 * k, 3);
    GroupBitsSnoc([a] + [b], c, 8);
    GroupBitsSnoc([a], b, 8);
    OneGroup(a, 8);
    BlockBits(a, b, c);
  }

  lemma SextetInside(e: seq<Octet>, j: nat)
    requires AllInAlphabet(e) && j < |e|
    ensures GroupBits(Indices(e), 6)[6 * j..6 * j + 6] == Bits(IndexOf(e[j]), 6)
  {
    GroupsAt(Indices(e), 6, j, 1);
    assert Indices(e)[j..j + 1] == [IndexOf(e[j])];
    OneGroup(IndexOf(e[j]), 6);
  }

  lemma SubSlice(bits: seq<bool>, at: nat, p: nat)
    requires at + 24 <= |bits| && p + 6 <= 24
    ensures bits[at + p..at + p + 6] == bits[at..at + 24][p..p + 6]
  {
    var w := bits[at..at + 24];
    var x, y := w[p..p + 6], bits[at + p..at + p + 6];
    forall i | 0 <= i < 6 ensures x[i] == y[i] {
      assert w[p + i] == bits[at + (p + i)];
    }
  }

  /** The six bits of a sextet among those of its block. */
  lemma BlockSide(source: seq<Octet>, k: nat, p: nat)
    requires p < 4 && 3 * k < |source|
    ensures var bits, at := GroupBits(source + [0] + [0], 8), 24 * k + 6 * p;
      at + 6 <= |bits| && bits[at..at + 6] == Bits((Block(source, k) / Pow2(18 - 6 * p)) % 64, 6)
  {
    BlockInside(source, k);
    SextetBits(Block(source, k), p);
    SubSlice(GroupBits(source + [0] + [0], 8), 24 * k, 6 * p);
  }

  /** The same six bits among those of the text. */
  lemma TextSide(source: seq<Octet>, e: seq<Octet>, j: nat)
    requires IsEncoding(source, e) && j < |e|
    ensures var bits := GroupBits(source + [0] + [0], 8);
      6 * j + 6 <= |bits| && bits[6 * j..6 * j + 6] == Bits(IndexOf(e[j]), 6)
  {
    PaddedBits(source, e);
    Shorten(GroupBits(source + [0] + [0], 8), 6 * |e|, 6 * j);
    SextetInside(e, j);
  }

  lemma Shorten(bits: seq<bool>, end: nat, at: nat)
    requires at + 6 <= end <= |bits|
    ensures bits[..end][at..at + 6] == bits[at..at + 6]
  {
  }

  /** Every character of an encoding is the sextet of its block, in the alphabet. */
  lemma EncodingIsByBlocks(source: seq<Octet>, e: seq<Octet>, k: nat, p: nat)
    requires IsEncoding(source, e) && p < 4 && 4 * k + p < |e|
    ensures e[4 * k + p] == ALPHABET[(Block(source, k) / Pow2(18 - 6 * p)) % 64] as int
  {
    var c, sextet: Sextet := e[4 * k + p], (Block(source, k) / Pow2(18 - 6 * p)) % 64;
    BlockSide(source, k, p);
    TextSide(source, e, 4 * k + p);
    BitsInjective(IndexOf(c), sextet, 6) by { PowersOfTwo(); }
    AlphabetIs(sextet);
    CharOfIndex(c);
  }

  lemma CharOfIndex(c: Octet)
    requires InAlphabet(c)
    ensures CharOf(IndexOf(c)) == c
  {
  }
}
