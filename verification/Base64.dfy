/**
  The unpadded base64url codec (src/base64.cc).

  The reference is RFC 4648, section 4 with the alphabet of section 5: the input octets, read as
  one string of bits, are cut into groups of six bits, the last group completed with zero bits.
  `OctetBits` and `SextetBits` are those bit strings.  The code works with shift buffers in
  32-bit arithmetic, which wraps: `<< 8` and `<< 6` are multiplications modulo 2^32, `>>` is a
  floor division and `&` with a mask of low ones is a remainder.
 */
module Base64 {

  type Octet = x: int | 0 <= x < 256
  type Sextet = x: int | 0 <= x < 64

  // ---------------------------------------------------------------- the alphabet

  /** Table 2 of RFC 4648, and the alphabet string of the source. */
  function CharOf(i: Sextet): Octet {
    if i < 26 then 'A' as int + i
    else if i < 52 then 'a' as int + (i - 26)
    else if i < 62 then '0' as int + (i - 52)
    else if i == 62 then '-' as int
    else '_' as int
  }

  predicate InAlphabet(c: Octet) {
    'A' as int <= c <= 'Z' as int || 'a' as int <= c <= 'z' as int || '0' as int <= c <= '9' as int
    || c == '-' as int || c == '_' as int
  }

  function IndexOf(c: Octet): Sextet
    requires InAlphabet(c)
  {
    if 'A' as int <= c <= 'Z' as int then c - 'A' as int
    else if 'a' as int <= c <= 'z' as int then c - 'a' as int + 26
    else if '0' as int <= c <= '9' as int then c - '0' as int + 52
    else if c == '-' as int then 62
    else 63
  }

  predicate AllInAlphabet(t: seq<Octet>) {
    forall c :: c in t ==> InAlphabet(c)
  }

  function Indices(t: seq<Octet>): (r: seq<Sextet>)
    requires AllInAlphabet(t)
  {
    seq(|t|, i requires 0 <= i < |t| => IndexOf(t[i]))
  }

  lemma IndicesInjective(a: seq<Octet>, b: seq<Octet>)
    requires AllInAlphabet(a) && AllInAlphabet(b)
    requires Indices(a) == Indices(b)
    ensures a == b
  {
    assert |a| == |Indices(a)| == |b|;
    forall i | 0 <= i < |a| ensures a[i] == b[i] {
      assert Indices(a)[i] == Indices(b)[i];
      assert a[i] in a && b[i] in b;
      assert CharOf(IndexOf(a[i])) == a[i] && CharOf(IndexOf(b[i])) == b[i];
    }
  }

  lemma IndicesSnoc(t: seq<Octet>, c: Octet)
    requires AllInAlphabet(t) && InAlphabet(c)
    ensures AllInAlphabet(t + [c])
    ensures Indices(t + [c]) == Indices(t) + [IndexOf(c)]
  {
  }

  // ---------------------------------------------------------------- bit strings

  function Pow2(n: nat): (p: nat)
    ensures p > 0
  {
    if n == 0 then 1 else 2 * Pow2(n - 1)
  }

  /** Bit `k` of `v` in two's complement, counted from the least significant. */
  predicate BitAt(v: int, k: nat)
    decreases k
  {
    if k == 0 then v % 2 == 1 else BitAt(v / 2, k - 1)
  }

  /** The low `width` bits of `v`, most significant first. */
  function Bits(v: int, width: nat): (r: seq<bool>)
    ensures |r| == width
  {
    seq(width, i requires 0 <= i < width => BitAt(v, width - 1 - i))
  }

  lemma BitsStep(v: int, width: nat)
    requires width > 0
    ensures Bits(v, width) == Bits(v / 2, width - 1) + [v % 2 == 1]
  {
    assert Bits(v, width)[width - 1] == BitAt(v, 0);
    forall i | 0 <= i < width - 1 ensures Bits(v, width)[i] == Bits(v / 2, width - 1)[i] {
      assert BitAt(v, width - 1 - i) == BitAt(v / 2, width - 2 - i);
    }
  }

  /** The bits of a sequence of `width`-bit groups. */
  function GroupBits(groups: seq<int>, width: nat): (r: seq<bool>)
    ensures |r| == width * |groups|
  {
    if groups == [] then []
    else
      var n := |groups| - 1;
      assert width * (n + 1) == width * n + width;
      GroupBits(groups[..n], width) + Bits(groups[n], width)
  }

  function Zeros(n: nat): (r: seq<bool>)
    ensures |r| == n
  {
    seq(n, _ => false)
  }

  lemma GroupBitsSnoc(groups: seq<int>, g: int, width: nat)
    ensures GroupBits(groups + [g], width) == GroupBits(groups, width) + Bits(g, width)
  {
    assert (groups + [g])[..|groups|] == groups;
  }

  lemma {:induction false} BitsOfConcatenation(a: int, b: int, w: nat, k: nat)
    requires 0 <= b < Pow2(k)
    ensures Bits(a * Pow2(k) + b, w + k) == Bits(a, w) + Bits(b, k)
    decreases k
  {
    if k == 0 {
      assert Bits(a, w) + Bits(b, 0) == Bits(a, w);
    } else {
      var v := a * Pow2(k) + b;
      assert a * Pow2(k) == 2 * (a * Pow2(k - 1));
      assert v / 2 == a * Pow2(k - 1) + b / 2;
      assert v % 2 == b % 2;
      BitsOfConcatenation(a, b / 2, w, k - 1);
      BitsStep(v, w + k);
      BitsStep(b, k);
    }
  }

  lemma {:induction false} BitsSplit(v: int, hi: nat, lo: nat)
    ensures Bits(v, hi + lo) == Bits(v / Pow2(lo), hi) + Bits(v, lo)
    decreases lo
  {
    if lo == 0 {
      assert Bits(v, hi) + Bits(v, 0) == Bits(v, hi);
    } else {
      BitsSplit(v / 2, hi, lo - 1);
      HalveDivision(v, Pow2(lo - 1));
      BitsStep(v, hi + lo);
      BitsStep(v, lo);
    }
  }

  lemma HalveDivision(v: int, d: nat)
    requires d > 0
    ensures (v / 2) / d == v / (2 * d)
  {
    var q := v / (2 * d);
    var r := v % (2 * d);
    assert v == q * (2 * d) + r;
    assert q * (2 * d) == 2 * (q * d);
    assert v / 2 == q * d + r / 2;
    assert 0 <= r / 2 < d;
    DivisionUnique(v / 2, d, q, r / 2);
  }

  lemma DivisionUnique(v: int, d: nat, q: int, r: int)
    requires d > 0 && v == q * d + r && 0 <= r < d
    ensures v / d == q && v % d == r
  {
    var k, m := v / d, v % d;
    assert v == d * k + m && 0 <= m < d;
    if k < q {
      MultipleMonotone(k + 1, q, d);
    } else if q < k {
      MultipleMonotone(q + 1, k, d);
    }
  }

  lemma MultipleMonotone(a: int, b: int, d: nat)
    requires a <= b
    ensures a * d <= b * d
  {
    assert (b - a) * d >= 0;
  }

  /** Reducing modulo 2^m, as 32-bit arithmetic does, leaves the low bits alone. */
  lemma {:induction false} BitsModulo(v: int, m: nat, w: nat)
    requires w <= m
    ensures Bits(v % Pow2(m), w) == Bits(v, w)
    decreases w
  {
    if w > 0 {
      var d := Pow2(m - 1);
      var q, r := v / Pow2(m), v % Pow2(m);
      assert v == q * (2 * d) + r && q * (2 * d) == 2 * (q * d);
      assert v / 2 == q * d + r / 2 && v % 2 == r % 2;
      DivisionUnique(v / 2, d, q, r / 2);
      BitsModulo(v / 2, m - 1, w - 1);
      BitsStep(v, w);
      BitsStep(v % Pow2(m), w);
    }
  }

  lemma {:induction false} BitsInjective(a: int, b: int, w: nat)
    requires 0 <= a < Pow2(w) && 0 <= b < Pow2(w)
    requires Bits(a, w) == Bits(b, w)
    ensures a == b
    decreases w
  {
    if w > 0 {
      BitsStep(a, w);
      BitsStep(b, w);
      assert Bits(a, w)[w - 1] == Bits(b, w)[w - 1];
      assert Bits(a, w)[..w - 1] == Bits(a / 2, w - 1) && Bits(b, w)[..w - 1] == Bits(b / 2, w - 1);
      BitsInjective(a / 2, b / 2, w - 1);
    }
  }

  lemma {:induction false} GroupBitsInjective(a: seq<int>, b: seq<int>, w: nat)
    requires |a| == |b|
    requires forall i :: 0 <= i < |a| ==> 0 <= a[i] < Pow2(w) && 0 <= b[i] < Pow2(w)
    requires GroupBits(a, w) == GroupBits(b, w)
    ensures a == b
    decreases |a|
  {
    if a != [] {
      var n := |a| - 1;
      assert |GroupBits(a[..n], w)| == |GroupBits(b[..n], w)| == w * n;
      assert GroupBits(a, w)[..w * n] == GroupBits(a[..n], w) && GroupBits(b, w)[..w * n] == GroupBits(b[..n], w);
      assert GroupBits(a, w)[w * n..] == Bits(a[n], w) && GroupBits(b, w)[w * n..] == Bits(b[n], w);
      GroupBitsInjective(a[..n], b[..n], w);
      BitsInjective(a[n], b[n], w);
      assert a == a[..n] + [a[n]] && b == b[..n] + [b[n]];
    }
  }

  lemma {:induction false} BitsOfZero(w: nat)
    ensures Bits(0, w) == Zeros(w)
  {
    if w > 0 {
      BitsOfZero(w - 1);
      BitsStep(0, w);
    }
  }

  lemma PowersOfTwo()
    ensures Pow2(6) == 64 && Pow2(8) == 256 && Pow2(24) == 0x100_0000 && Pow2(32) == 0x1_0000_0000
  {
    assert Pow2(8) == 256;
    assert Pow2(16) == 65536;
    assert Pow2(24) == 0x100_0000;
  }

  // ---------------------------------------------------------------- what the codec promises

  /** `r` is the unpadded base64url encoding of `source`. */
  ghost predicate IsEncoding(source: seq<Octet>, r: seq<Octet>) {
    && AllInAlphabet(r)
    && |r| == (4 * |source| + 2) / 3
    && GroupBits(Indices(r), 6) == GroupBits(source, 8) + Zeros(6 * |r| - 8 * |source|)
  }

  /** The number of leading alphabet characters: decoding stops at the first other one. */
  function AlphabetPrefix(t: seq<Octet>): (n: nat)
    ensures n <= |t| && AllInAlphabet(t[..n])
    ensures n < |t| ==> !InAlphabet(t[n])
  {
    if t == [] || !InAlphabet(t[0]) then 0
    else
      var n := AlphabetPrefix(t[1..]);
      assert t[..n + 1] == [t[0]] + t[1..][..n];
      n + 1
  }

  /** `r` is made of the whole octets found in the leading alphabet characters of `source`. */
  ghost predicate IsDecoding(source: seq<Octet>, r: seq<Octet>) {
    var p := AlphabetPrefix(source);
    && |r| == 6 * p / 8
    && GroupBits(r, 8) == GroupBits(Indices(source[..p]), 6)[..8 * |r|]
  }

  lemma EncodingUnique(source: seq<Octet>, a: seq<Octet>, b: seq<Octet>)
    requires IsEncoding(source, a) && IsEncoding(source, b)
    ensures a == b
  {
    PowersOfTwo();
    GroupBitsInjective(Indices(a), Indices(b), 6);
    IndicesInjective(a, b);
  }

  lemma DecodingUnique(source: seq<Octet>, a: seq<Octet>, b: seq<Octet>)
    requires IsDecoding(source, a) && IsDecoding(source, b)
    ensures a == b
  {
    PowersOfTwo();
    GroupBitsInjective(a, b, 8);
  }

  // ---------------------------------------------------------------- the code

  /** `unsigned int` arithmetic. */
  function Unsigned32(v: int): int { v % 0x1_0000_0000 }

  /** `int` arithmetic in two's complement. */
  function Signed32(v: int): int {
    if v % 0x1_0000_0000 < 0x8000_0000 then v % 0x1_0000_0000 else v % 0x1_0000_0000 - 0x1_0000_0000
  }

  lemma Signed32Bits(v: int, w: nat)
    requires w <= 32
    ensures Bits(Signed32(v), w) == Bits(v, w)
  {
    PowersOfTwo();
    assert Signed32(v) % 0x1_0000_0000 == v % 0x1_0000_0000;
    BitsModulo(v, 32, w);
    BitsModulo(Signed32(v), 32, w);
  }

  /** The buffer after taking one more octet: `(buffer << 8) | c`. */
  function TakeOctet(buffer: int, c: Octet): int {
    Unsigned32(buffer * 256) + c
  }

  /** What `<< 8` keeps of the buffer below the wrap. */
  lemma ShiftKeeps(buffer: int, live: nat) returns (carried: int)
    requires live <= 24
    ensures Unsigned32(buffer * 256) == carried * 256
    ensures Bits(carried, live) == Bits(buffer, live)
  {
    PowersOfTwo();
    carried := buffer % 0x100_0000;
    assert buffer == 0x100_0000 * (buffer / 0x100_0000) + carried;
    assert buffer * 256 == 0x1_0000_0000 * (buffer / 0x100_0000) + carried * 256;
    BitsModulo(buffer, 24, live);
  }

  lemma TakeOctetBits(buffer: int, c: Octet, live: nat)
    requires live <= 24
    ensures Bits(TakeOctet(buffer, c), live + 8) == Bits(buffer, live) + Bits(c, 8)
  {
    PowersOfTwo();
    var carried := ShiftKeeps(buffer, live);
    BitsOfConcatenation(carried, c, live, 8);
  }

  /** The sextet `(buffer >> size) & 0x3f` holds the top six of the `size + 6` live bits. */
  lemma TopSextet(buffer: int, size: nat)
    ensures Bits(buffer, size + 6) == Bits((buffer / Pow2(size)) % 64, 6) + Bits(buffer, size)
  {
    PowersOfTwo();
    BitsSplit(buffer, 6, size);
    BitsModulo(buffer / Pow2(size), 6, 6);
  }

  /** The octet `(val >> shift) & 0xFF` holds the top eight of the `shift + 8` live bits. */
  lemma TopOctet(val: int, shift: nat)
    ensures Bits(val, shift + 8) == Bits((val / Pow2(shift)) % 256, 8) + Bits(val, shift)
  {
    PowersOfTwo();
    BitsSplit(val, 8, shift);
    BitsModulo(val / Pow2(shift), 8, 8);
  }

  /** What is already written, followed by the live bits of the buffer, is what has been read. */
  ghost predicate EncoderHolds(read: seq<Octet>, written: seq<Octet>, buffer: int, live: nat) {
    && AllInAlphabet(written)
    && 6 * |written| + live == 8 * |read|
    && GroupBits(Indices(written), 6) + Bits(buffer, live) == GroupBits(read, 8)
  }

  lemma EncoderTakes(read: seq<Octet>, written: seq<Octet>, buffer: int, live: nat, c: Octet)
    requires EncoderHolds(read, written, buffer, live) && live <= 24
    ensures EncoderHolds(read + [c], written, TakeOctet(buffer, c), live + 8)
  {
    TakeOctetBits(buffer, c, live);
    GroupBitsSnoc(read, c, 8);
    assert GroupBits(Indices(written), 6) + (Bits(buffer, live) + Bits(c, 8)) == GroupBits(read, 8) + Bits(c, 8);
  }

  lemma EncoderReads(source: seq<Octet>, i: nat, written: seq<Octet>, buffer: int, live: nat)
    requires i < |source| && EncoderHolds(source[..i], written, buffer, live) && live <= 24
    ensures EncoderHolds(source[..i + 1], written, TakeOctet(buffer, source[i]), live + 8)
  {
    EncoderTakes(source[..i], written, buffer, live, source[i]);
    assert source[..i + 1] == source[..i] + [source[i]];
  }

  lemma EncoderEmits(read: seq<Octet>, written: seq<Octet>, buffer: int, size: nat)
    requires EncoderHolds(read, written, buffer, size + 6)
    ensures EncoderHolds(read, written + [CharOf((buffer / Pow2(size)) % 64)], buffer, size)
  {
    var index: Sextet := (buffer / Pow2(size)) % 64;
    TopSextet(buffer, size);
    IndicesSnoc(written, CharOf(index));
    GroupBitsSnoc(Indices(written), index, 6);
    assert GroupBits(Indices(written), 6) + (Bits(index, 6) + Bits(buffer, size)) == GroupBits(read, 8);
  }

  /** Flushing: one more zero octet is taken, and all but its leading zero bits are dropped. */
  lemma EncoderFinishes(read: seq<Octet>, written: seq<Octet>, buffer: int, live: nat)
    requires EncoderHolds(read + [0], written, buffer, live + 2) && 0 < live < 6
    requires 6 * |written| == 8 * |read| + 6 - live
    ensures IsEncoding(read, written)
  {
    var pad := 6 - live;
    assert GroupBits(read + [0], 8) == GroupBits(read, 8) + Zeros(8) by {
      GroupBitsSnoc(read, 0, 8);
      BitsOfZero(8);
    }
    assert GroupBits(Indices(written), 6) == GroupBits(read + [0], 8)[..6 * |written|];
    assert GroupBits(Indices(written), 6) == GroupBits(read, 8) + Zeros(pad);
  }

  lemma EncoderFlushes(source: seq<Octet>, written: seq<Octet>, buffer: int, live: nat)
    requires EncoderHolds(source, written, buffer, live) && 0 < live < 6
    ensures IsEncoding(source, written + [CharOf((TakeOctet(buffer, 0) / Pow2(live + 2)) % 64)])
  {
    EncoderTakes(source, written, buffer, live, 0);
    EncoderEmits(source + [0], written, TakeOctet(buffer, 0), live + 2);
    EncoderFinishes(source, written + [CharOf((TakeOctet(buffer, 0) / Pow2(live + 2)) % 64)],
                    TakeOctet(buffer, 0), live);
  }

  lemma EncoderIsDone(source: seq<Octet>, written: seq<Octet>, buffer: int)
    requires EncoderHolds(source, written, buffer, 0)
    ensures IsEncoding(source, written)
  {
    assert GroupBits(source, 8) + Zeros(0) == GroupBits(source, 8);
    assert GroupBits(Indices(written), 6) + Bits(buffer, 0) == GroupBits(Indices(written), 6);
  }

  method Encode(source: seq<Octet>) returns (result: seq<Octet>)
    ensures IsEncoding(source, result)
  {
    result := [];
    var codeBuffer := 0;
    var codeBufferSize := -6;
    var i := 0;
    while i < |source|
      invariant 0 <= i <= |source|
      invariant -6 <= codeBufferSize < 0
      invariant EncoderHolds(source[..i], result, codeBuffer, codeBufferSize + 6)
    {
      EncoderReads(source, i, result, codeBuffer, codeBufferSize + 6);
      codeBuffer := TakeOctet(codeBuffer, source[i]);
      codeBufferSize := codeBufferSize + 8;
      i := i + 1;
      while codeBufferSize >= 0
        invariant -6 <= codeBufferSize <= 7
        invariant EncoderHolds(source[..i], result, codeBuffer, codeBufferSize + 6)
      {
        EncoderEmits(source[..i], result, codeBuffer, codeBufferSize);
        result := result + [CharOf((codeBuffer / Pow2(codeBufferSize)) % 64)];
        codeBufferSize := codeBufferSize - 6;
      }
    }
    assert source[..i] == source;
    if codeBufferSize > -6 {
      EncoderFlushes(source, result, codeBuffer, codeBufferSize + 6);
      codeBuffer := TakeOctet(codeBuffer, 0);
      codeBufferSize := codeBufferSize + 8;
      result := result + [CharOf((codeBuffer / Pow2(codeBufferSize)) % 64)];
    } else {
      EncoderIsDone(source, result, codeBuffer);
    }
  }

  /** Bits shifted past the live ones, up to the wrap at 32, never reach the output. */
  lemma OnlyLiveBitsMatter(a: int, b: int, live: nat, c: Octet, size: nat)
    requires Bits(a, live) == Bits(b, live) && size + 6 <= live + 8 <= 32
    ensures Bits(TakeOctet(a, c), live + 8) == Bits(TakeOctet(b, c), live + 8)
    ensures (TakeOctet(a, c) / Pow2(size)) % 64 == (TakeOctet(b, c) / Pow2(size)) % 64
  {
    TakeOctetBits(a, c, live);
    TakeOctetBits(b, c, live);
    var x, y := TakeOctet(a, c), TakeOctet(b, c);
    var skip := live + 8 - (size + 6);
    BitsSplit(x, skip, size + 6);
    BitsSplit(y, skip, size + 6);
    assert Bits(x, size + 6) == Bits(x, live + 8)[skip..] == Bits(y, size + 6);
    TopSextet(x, size);
    TopSextet(y, size);
    assert Bits((x / Pow2(size)) % 64, 6) == Bits(x, size + 6)[..6] == Bits((y / Pow2(size)) % 64, 6);
    PowersOfTwo();
    BitsInjective((x / Pow2(size)) % 64, (y / Pow2(size)) % 64, 6);
  }

  /** What is already written, followed by the live bits of `val`, is what has been read. */
  ghost predicate DecoderHolds(read: seq<Octet>, written: seq<Octet>, val: int, live: nat) {
    && AllInAlphabet(read)
    && 8 * |written| + live == 6 * |read|
    && GroupBits(written, 8) + Bits(val, live) == GroupBits(Indices(read), 6)
  }

  lemma DecoderTakes(read: seq<Octet>, written: seq<Octet>, val: int, live: nat, c: Octet)
    requires DecoderHolds(read, written, val, live) && live <= 26 && InAlphabet(c)
    ensures DecoderHolds(read + [c], written, Signed32(Signed32(val * 64) + IndexOf(c)), live + 6)
  {
    var t := IndexOf(c);
    NextValBits(val, live, t);
    IndicesSnoc(read, c);
    GroupBitsSnoc(Indices(read), t, 6);
    assert GroupBits(written, 8) + (Bits(val, live) + Bits(t, 6)) == GroupBits(Indices(read), 6) + Bits(t, 6);
  }

  /** `(val << 6) + t` with wrap-around appends the bits of `t` to the live ones. */
  lemma NextValBits(val: int, live: nat, t: Sextet)
    requires live <= 26
    ensures Bits(Signed32(Signed32(val * 64) + t), live + 6) == Bits(val, live) + Bits(t, 6)
  {
    WrapTwice(val * 64, t);
    Signed32Bits(val * 64 + t, live + 6);
    assert Pow2(6) == 64 by { PowersOfTwo(); }
    BitsOfConcatenation(val, t, live, 6);
  }

  lemma WrapTwice(v: int, t: int)
    ensures Signed32(Signed32(v) + t) == Signed32(v + t)
  {
  }

  lemma DecoderReads(source: seq<Octet>, i: nat, written: seq<Octet>, val: int, live: nat)
    requires i < |source| && DecoderHolds(source[..i], written, val, live) && live <= 26 && InAlphabet(source[i])
    ensures DecoderHolds(source[..i + 1], written, Signed32(Signed32(val * 64) + IndexOf(source[i])), live + 6)
  {
    DecoderTakes(source[..i], written, val, live, source[i]);
    assert source[..i + 1] == source[..i] + [source[i]];
  }

  lemma DecoderEmits(read: seq<Octet>, written: seq<Octet>, val: int, shift: nat)
    requires DecoderHolds(read, written, val, shift + 8)
    ensures DecoderHolds(read, written + [(val / Pow2(shift)) % 256], val, shift)
  {
    var octet: Octet := (val / Pow2(shift)) % 256;
    TopOctet(val, shift);
    GroupBitsSnoc(written, octet, 8);
    assert GroupBits(written, 8) + (Bits(octet, 8) + Bits(val, shift)) == GroupBits(Indices(read), 6);
  }

  /** One round of the loop: read, and write an octet once there are eight live bits. */
  lemma DecoderAdvances(source: seq<Octet>, i: nat, written: seq<Octet>, val: int, next: int, shift: int)
    requires i < |source| && InAlphabet(source[i]) && -8 <= shift < 0
    requires DecoderHolds(source[..i], written, val, shift + 8)
    requires next == Signed32(Signed32(val * 64) + IndexOf(source[i]))
    ensures shift + 6 < 0 ==> DecoderHolds(source[..i + 1], written, next, shift + 6 + 8)
    ensures shift + 6 >= 0 ==>
      DecoderHolds(source[..i + 1], written + [(next / Pow2(shift + 6)) % 256], next, shift + 6 - 8 + 8)
  {
    DecoderReads(source, i, written, val, shift + 8);
    if shift + 6 >= 0 {
      DecoderEmits(source[..i + 1], written, next, shift + 6);
    }
  }

  lemma AlphabetPrefixIs(t: seq<Octet>, n: nat)
    requires n <= |t| && AllInAlphabet(t[..n]) && (n < |t| ==> !InAlphabet(t[n]))
    ensures AlphabetPrefix(t) == n
  {
    var m := AlphabetPrefix(t);
    assert forall i :: 0 <= i < n ==> t[i] in t[..n];
    assert forall i :: 0 <= i < m ==> t[i] in t[..m];
  }

  lemma DecoderIsDone(source: seq<Octet>, n: nat, written: seq<Octet>, val: int, live: nat)
    requires n <= |source| && DecoderHolds(source[..n], written, val, live) && live < 8
    requires n < |source| ==> !InAlphabet(source[n])
    ensures IsDecoding(source, written)
  {
    AlphabetPrefixIs(source, n);
    assert GroupBits(written, 8) == GroupBits(Indices(source[..n]), 6)[..8 * |written|];
  }

  /** The position of each alphabet character, -1 for the others. */
  ghost predicate IsTable(t: seq<int>) {
    |t| == 256 && forall c: Octet :: t[c] == if InAlphabet(c) then IndexOf(c) else -1
  }

  method DecodeTable() returns (T: seq<int>)
    ensures IsTable(T)
  {
    var table := new int[256](_ => -1);
    for k := 0 to 64
      invariant forall c: Octet :: table[c] == if InAlphabet(c) && IndexOf(c) < k then IndexOf(c) else -1
    {
      table[CharOf(k)] := k;
    }
    T := table[..];
  }

  method Decode(source: seq<Octet>) returns (result: seq<Octet>)
    requires forall c :: c in source ==> c < 128
    ensures IsDecoding(source, result)
  {
    result := [];
    var T := DecodeTable();
    var val, shift := 0, -8;
    var i := 0;
    while i < |source|
      invariant 0 <= i <= |source|
      invariant -8 <= shift < 0
      invariant DecoderHolds(source[..i], result, val, shift + 8)
    {
      var c := source[i];
      if T[c] == -1 {
        break;
      }
      ghost var before := val;
      val := Signed32(Signed32(val * 64) + T[c]);
      DecoderAdvances(source, i, result, before, val, shift);
      shift := shift + 6;
      i := i + 1;
      if shift >= 0 {
        result := result + [(val / Pow2(shift)) % 256];
        shift := shift - 8;
      }
    }
    DecoderIsDone(source, i, result, val, shift + 8);
  }

  // ---------------------------------------------------------------- round trips

  /** Decoding undoes encoding, whatever follows it from a non-alphabet character on. */
  lemma DecodeOfEncode(s: seq<Octet>, e: seq<Octet>, pad: seq<Octet>, d: seq<Octet>)
    requires IsEncoding(s, e)
    requires pad == [] || !InAlphabet(pad[0])
    requires IsDecoding(e + pad, d)
    ensures d == s
  {
    assert (e + pad)[..|e|] == e;
    AlphabetPrefixIs(e + pad, |e|);
    assert |d| == |s|;
    assert GroupBits(d, 8) == GroupBits(s, 8);
    PowersOfTwo();
    GroupBitsInjective(d, s, 8);
  }

  /** Section 3.5 of RFC 4648: no dangling character and no set bit beyond the last whole octet. */
  ghost predicate Canonical(t: seq<Octet>)
    requires AllInAlphabet(t)
  {
    && |t| % 4 != 1
    && forall i :: 8 * (6 * |t| / 8) <= i < 6 * |t| ==> !GroupBits(Indices(t), 6)[i]
  }

  /** How re-encoding the whole octets of a text differs from that text, bit for bit. */
  lemma ReencodedBits(t: seq<Octet>, d: seq<Octet>, e: seq<Octet>)
    requires AllInAlphabet(t)
    requires IsDecoding(t, d) && IsEncoding(d, e)
    ensures |d| == 6 * |t| / 8 && |e| == (4 * |d| + 2) / 3 && 8 * |d| <= 6 * |e|
    ensures GroupBits(Indices(e), 6) == GroupBits(Indices(t), 6)[..8 * |d|] + Zeros(6 * |e| - 8 * |d|)
  {
    assert t[..|t|] == t;
    AlphabetPrefixIs(t, |t|);
  }

  /** Encoding undoes decoding exactly on the canonical texts. */
  lemma EncodeOfDecode(t: seq<Octet>, d: seq<Octet>, e: seq<Octet>)
    requires AllInAlphabet(t)
    requires IsDecoding(t, d) && IsEncoding(d, e)
    ensures e == t <==> Canonical(t)
  {
    ReencodedBits(t, d, e);
    if e == t { ReencodedIsCanonical(t, |d|); }
    if Canonical(t) { CanonicalIsReencoded(t, |d|, e); }
  }

  lemma ReencodedIsCanonical(t: seq<Octet>, octets: nat)
    requires AllInAlphabet(t) && octets == 6 * |t| / 8 && |t| == (4 * octets + 2) / 3 && 8 * octets <= 6 * |t|
    requires GroupBits(Indices(t), 6) == GroupBits(Indices(t), 6)[..8 * octets] + Zeros(6 * |t| - 8 * octets)
    ensures Canonical(t)
  {
    var bits, n := GroupBits(Indices(t), 6), 8 * octets;
    forall i | n <= i < 6 * |t| ensures !bits[i] {
      assert bits[i] == Zeros(6 * |t| - n)[i - n];
    }
  }

  lemma ZeroTail(bits: seq<bool>, n: nat)
    requires n <= |bits| && forall i :: n <= i < |bits| ==> !bits[i]
    ensures bits[..n] + Zeros(|bits| - n) == bits
  {
  }

  lemma CanonicalIsReencoded(t: seq<Octet>, octets: nat, e: seq<Octet>)
    requires AllInAlphabet(t) && AllInAlphabet(e) && Canonical(t)
    requires octets == 6 * |t| / 8 && |e| == (4 * octets + 2) / 3 && 8 * octets <= 6 * |e|
    requires GroupBits(Indices(e), 6) == GroupBits(Indices(t), 6)[..8 * octets] + Zeros(6 * |e| - 8 * octets)
    ensures e == t
  {
    var bits, n := GroupBits(Indices(t), 6), 8 * octets;
    assert |e| == |t|;
    assert GroupBits(Indices(e), 6) == bits by { ZeroTail(bits, n); }
    assert Pow2(6) == 64 by { PowersOfTwo(); }
    GroupBitsInjective(Indices(e), Indices(t), 6);
    IndicesInjective(e, t);
  }
}
