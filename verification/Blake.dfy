/** The streaming part of BLAKE-512 and BLAKE-384: buffering, counting and closing. */
module Blake {
  import opened Digits
  import opened BlakeSpec
  import opened Seqs

  // ----- one step of the context, as values -----

  /** Chain value, 128-bit counter and the bytes waiting in the buffer. */
  datatype Raw = Raw(h: State, t: nat, tail: seq<nat>)

  function At(r: Raw, t: nat): Raw { Raw(r.h, t, r.tail) }

  /** A full block is compressed with a counter that moves on by 1024 first. */
  function Compressed(f: Compression, r: Raw, block: seq<nat>): (r': Raw)
    ensures r'.tail == []
  {
    var t := (r.t + 1024) % DOUBLE;
    Raw(f(r.h, block, t), t, [])
  }

  /** The counter after k blocks more. */
  function CountFrom(t: nat, k: nat): nat { (t + 1024 * k) % DOUBLE }

  /** The chain value after k blocks of s. */
  function Fold(f: Compression, h: State, t: nat, s: seq<nat>, k: nat): State
    requires 128 * k <= |s|
    decreases k
  {
    if k == 0 then h else f(Fold(f, h, t, s, k - 1), Block(s, k - 1), CountFrom(t, k))
  }

  /** Feeding data: what was waiting and the data are compressed block by block, and the rest waits. */
  function Feed(f: Compression, r: Raw, data: seq<nat>): (r': Raw)
    ensures |r'.tail| < 128
  {
    var s := r.tail + data;
    var k := |s| / 128;
    Raw(Fold(f, r.h, r.t, s, k), CountFrom(r.t, k), s[128 * k..])
  }

  /** The context has taken in exactly the message m. */
  ghost predicate Took(f: Compression, iv: State, r: Raw, m: seq<nat>) {
    var k := |m| / 128;
    && r.h == Chain(f, iv, m, 8 * |m|, k)
    && r.t == CountFrom(0, k)
    && r.tail == m[128 * k..]
  }

  lemma CounterInside(i: nat, total: nat, count: nat)
    requires count == i + 1 && 1024 * count <= total
    ensures Counter(i, total) == CountFrom(0, count)
  {
  }

  /** The chain over whole blocks does not see what comes after them. */
  lemma {:induction false} ChainPrefix(f: Compression, iv: State, m: seq<nat>, total: nat, p: seq<nat>, total': nat,
                                       k: nat)
    requires 128 * k <= |m| <= |p| && p[..|m|] == m && 1024 * k <= total && 1024 * k <= total'
    ensures Chain(f, iv, m, total, k) == Chain(f, iv, p, total', k)
    decreases k
  {
    if k > 0 {
      ChainPrefix(f, iv, m, total, p, total', k - 1);
      CounterInside(k - 1, total, k);
      CounterInside(k - 1, total', k);
      PrefixBlock(m, p, k - 1);
    }
  }

  lemma PrefixBlock(m: seq<nat>, p: seq<nat>, i: nat)
    requires 128 * (i + 1) <= |m| <= |p| && p[..|m|] == m
    ensures Block(p, i) == Block(m, i)
  {
    forall j | 0 <= j < 128 ensures Block(p, i)[j] == Block(m, i)[j] {
      assert p[..|m|][128 * i + j] == p[128 * i + j];
    }
  }

  lemma ChainStep(f: Compression, iv: State, p: seq<nat>, total: nat, k: nat, next: nat)
    requires next == k + 1 && 128 * next <= |p|
    ensures Chain(f, iv, p, total, next) == f(Chain(f, iv, p, total, k), Block(p, k), Counter(k, total))
  {
  }

  lemma CountsOn(t: nat, k: nat, j: nat, sum: nat)
    requires sum == k + j
    ensures CountFrom(CountFrom(t, k), j) == CountFrom(t, sum)
  {
    var q := (t + 1024 * k) / DOUBLE;
    assert CountFrom(t, k) == t + 1024 * k - DOUBLE * q;
    WrapsAround(t + 1024 * sum, q);
  }

  lemma WrapsAround(x: nat, q: nat)
    requires DOUBLE * q <= x
    ensures (x - DOUBLE * q) % DOUBLE == x % DOUBLE
  {
  }

  /** Folding on from block k is the chain over the whole. */
  lemma {:induction false} ChainFolds(f: Compression, iv: State, p: seq<nat>, k: nat, s: seq<nat>, j: nat, sum: nat)
    requires sum == k + j && 128 * sum <= |p| && s == p[128 * k..]
    ensures Fold(f, Chain(f, iv, p, 8 * |p|, k), CountFrom(0, k), s, j) == Chain(f, iv, p, 8 * |p|, sum)
    decreases j
  {
    if j > 0 {
      ChainFolds(f, iv, p, k, s, j - 1, sum - 1);
      CountsOn(0, k, j, sum);
      CounterInside(sum - 1, 8 * |p|, sum);
      ChainStep(f, iv, p, 8 * |p|, sum - 1, sum);
      LaterBlock(p, k, s, j - 1, sum - 1);
    } else {
      assert sum == k;
    }
  }

  lemma LaterBlock(p: seq<nat>, k: nat, s: seq<nat>, j: nat, i: nat)
    requires i == k + j && 128 * (i + 1) <= |p| && s == p[128 * k..]
    ensures Block(s, j) == Block(p, i)
  {
  }

  /** Feeding more data is the same as having had a longer message, however it is cut. */
  lemma FeedTakes(f: Compression, iv: State, r: Raw, m: seq<nat>, data: seq<nat>)
    requires Took(f, iv, r, m)
    ensures Took(f, iv, Feed(f, r, data), m + data)
  {
    var p, k, s := m + data, |m| / 128, r.tail + data;
    var j, sum := |s| / 128, |p| / 128;
    assert p[..|m|] == m && s == p[128 * k..];
    assert |p| == 128 * k + |s| && sum == k + j;
    ChainPrefix(f, iv, m, 8 * |m|, p, 8 * |p|, k);
    ChainFolds(f, iv, p, k, s, j, sum);
    CountsOn(0, k, j, sum);
    assert s[128 * j..] == p[128 * sum..];
  }

  function FeedAll(f: Compression, r: Raw, pieces: seq<seq<nat>>): Raw {
    if pieces == [] then r else Feed(f, FeedAll(f, r, pieces[..|pieces| - 1]), pieces[|pieces| - 1])
  }

  function Joined(pieces: seq<seq<nat>>): seq<nat> {
    if pieces == [] then [] else Joined(pieces[..|pieces| - 1]) + pieces[|pieces| - 1]
  }

  lemma {:induction false} PiecesTaken(f: Compression, iv: State, pieces: seq<seq<nat>>)
    ensures Took(f, iv, FeedAll(f, Raw(iv, 0, []), pieces), Joined(pieces))
  {
    if pieces != [] {
      var init := pieces[..|pieces| - 1];
      PiecesTaken(f, iv, init);
      FeedTakes(f, iv, FeedAll(f, Raw(iv, 0, []), init), Joined(init), pieces[|pieces| - 1]);
    }
  }

  /** Two ways of cutting the same message leave the same context. */
  lemma CutsDoNotMatter(f: Compression, iv: State, a: seq<seq<nat>>, b: seq<seq<nat>>)
    requires Joined(a) == Joined(b)
    ensures FeedAll(f, Raw(iv, 0, []), a) == FeedAll(f, Raw(iv, 0, []), b)
  {
    PiecesTaken(f, iv, a);
    PiecesTaken(f, iv, b);
  }

  // ----- the counter in two words -----

  function Join(t0: nat, t1: nat): nat { Paste(t1, t0, WORD) }

  /** One block more. */
  function CountLow(t0: nat): nat { (t0 + 1024) % WORD }
  function CountHigh(t0: nat, t1: nat): nat { if CountLow(t0) < 1024 then (t1 + 1) % WORD else t1 }

  lemma CountBlock(t0: nat, t1: nat)
    requires t0 < WORD && t1 < WORD
    ensures CountHigh(t0, t1) < WORD
    ensures Join(CountLow(t0), CountHigh(t0, t1)) == (Join(t0, t1) + 1024) % DOUBLE
  {
    var s := t0 + 1024;
    if s < WORD {
      assert CountLow(t0) == s;
    } else {
      assert CountLow(t0) == s - WORD;
    }
  }

  lemma Counted(f: Compression, r: Raw, block: seq<nat>, t0: nat, t1: nat)
    requires t0 < WORD && t1 < WORD && r.t == Join(t0, t1)
    ensures CountLow(t0) < WORD && CountHigh(t0, t1) < WORD
    ensures var t := Join(CountLow(t0), CountHigh(t0, t1));
      Compressed(f, r, block) == Raw(f(r.h, block, t), t, [])
  {
    CountBlock(t0, t1);
  }

  /** The counter that, moved on by one block, becomes the count of a final block with so many bits. */
  function LastLow(t0: nat, bits: nat): (t: nat)
    ensures t < WORD
  {
    if bits == 0 then WORD - 1024 else if t0 == 0 then (WORD - 1024 + bits) % WORD else (t0 - (1024 - bits)) % WORD
  }

  function LastHigh(t0: nat, t1: nat, bits: nat): (t: nat)
    ensures t1 < WORD ==> t < WORD
  {
    if bits == 0 then WORD - 1 else if t0 == 0 then (t1 - 1) % WORD else t1
  }

  lemma LastCount(t0: nat, t1: nat, bits: nat)
    requires t0 < WORD && t1 < WORD && t0 % 1024 == 0 && bits < 1024
    ensures var l, h := LastLow(t0, bits), LastHigh(t0, t1, bits);
      (Join(l, h) + 1024) % DOUBLE == if bits == 0 then 0 else Join(t0, t1) + bits
  {
    var l, h := LastLow(t0, bits), LastHigh(t0, t1, bits);
    if bits == 0 {
      assert Join(l, h) + 1024 == DOUBLE;
    } else if t0 == 0 && t1 == 0 {
      assert l == WORD - 1024 + bits && h == WORD - 1;
      assert Join(l, h) + 1024 == DOUBLE + bits;
    } else {
      assert t0 == 0 ==> l == WORD - 1024 + bits && h == t1 - 1;
      assert t0 > 0 ==> l == t0 - 1024 + bits && h == t1;
      assert Join(l, h) + 1024 == Join(t0, t1) + bits < DOUBLE;
    }
  }

  lemma SmallMod(x: nat, m: nat)
    requires x < m
    ensures x % m == x
  {
  }

  lemma JoinDivides(t0: nat, t1: nat, k: nat)
    requires t0 < WORD && t1 < WORD && Join(t0, t1) == CountFrom(0, k)
    ensures t0 % 1024 == 0 && t0 + 1024 <= WORD
  {
    var q := 1024 * k / DOUBLE;
    var m := k - DOUBLE / 1024 * q;
    assert Join(t0, t1) == 1024 * m;
    assert t0 == 1024 * (m - WORD / 1024 * t1);
  }

  lemma TotalCount(t0: nat, t1: nat, k: nat, bits: nat, total: nat)
    requires t0 < WORD && t1 < WORD && Join(t0, t1) == CountFrom(0, k) && bits < 1024 && total == 1024 * k + bits
    ensures total % DOUBLE == Join(t0, t1) + bits == Join(t0 + bits, t1)
    ensures t0 + bits < WORD
  {
    JoinDivides(t0, t1, k);
    var q := 1024 * k / DOUBLE;
    var rest := Join(t0, t1) + bits;
    assert total == DOUBLE * q + rest && rest < DOUBLE;
    WrapsAround(total, q);
    SmallMod(rest, DOUBLE);
  }

  // ----- the bytes that close a message -----

  /** A number in n bytes, highest first. */
  function Encode(v: nat, n: nat): (b: seq<nat>)
    ensures |b| == n
    decreases n, v
  {
    if n == 0 then [] else Encode(v / 256, n - 1) + [v % 256]
  }

  /** A number with its lowest k bits cleared. */
  function Cleared(x: nat, k: nat): nat
    decreases k, x
  {
    if k == 0 then x else 2 * Cleared(x / 2, k - 1)
  }

  /** The top n bits of a byte, then a one, then zeros. */
  function LastByte(ub: nat, n: nat): nat
    requires n < 8
  {
    (Cleared(ub, 8 - n) + Power(2, 7 - n)) % 256
  }

  /** Sets the lowest bit of the last byte. */
  function Mark(s: seq<nat>, marker: bool): (r: seq<nat>)
    requires s != []
    ensures |r| == |s|
  {
    if marker then s[|s| - 1 := s[|s| - 1] / 2 * 2 + 1] else s
  }

  /** What fills up the last block of a message, if its length does not fit in any more. */
  function Fill(ptr: nat, ub: nat, n: nat): (e: seq<nat>)
    requires ptr < 128 && n < 8
    ensures |e| == 128 - ptr
  {
    [LastByte(ub, n)] + Zeros(127 - ptr)
  }

  /** Zeros, marker and length, from some bytes on. */
  function Finish(start: seq<nat>, marker: bool, length: seq<nat>): (e: seq<nat>)
    requires start != []
    ensures |e| == |start| + |length|
  {
    Mark(start, marker) + length
  }

  predicate Fits(ptr: nat, n: nat) { 8 * ptr + n <= 894 }

  /** What closes a message with ptr whole bytes and n bits in its last block. */
  function Ending(ptr: nat, ub: nat, n: nat, marker: bool, length: seq<nat>): (e: seq<nat>)
    requires ptr < 128 && n < 8 && |length| == 16
    ensures ptr + |e| == if Fits(ptr, n) then 128 else 256
  {
    if Fits(ptr, n) then Finish([LastByte(ub, n)] + Zeros(111 - ptr), marker, length)
    else Fill(ptr, ub, n) + Finish(Zeros(112), marker, length)
  }

  /** The length in 128 bits. */
  function LengthField(total: nat): (b: seq<nat>)
    ensures |b| == 16
  {
    Encode(total % DOUBLE, 16)
  }

  function PaddedWith(m: seq<nat>, ptr: nat, ub: nat, n: nat, marker: bool, length: seq<nat>): seq<nat>
    requires ptr < 128 && n < 8 && |length| == 16
  {
    m + Ending(ptr, ub, n, marker, length)
  }

  function PaddedBytes(m: seq<nat>, ub: nat, n: nat, marker: bool): seq<nat>
    requires n < 8
  {
    PaddedWith(m, |m| % 128, ub, n, marker, LengthField(8 * |m| + n))
  }

  // ----- they are the padding of the bit string -----

  lemma {:induction false} EncodeBits(v: nat, n: nat)
    ensures Bits(Encode(v, n)) == NumberBits(v, 8 * n)
    decreases n
  {
    if n > 0 {
      BitsLast(Encode(v / 256, n - 1), v % 256);
      EncodeBits(v / 256, n - 1);
      LowByte(v, 8 * (n - 1));
    }
  }

  lemma {:induction false} EncodeTwo(high: nat, low: nat, a: nat, b: nat, unit: nat)
    requires unit == Power(256, b) && low < unit
    ensures Encode(high * unit + low, a + b) == Encode(high, a) + Encode(low, b)
    decreases b
  {
    if b == 0 {
      assert Encode(low, b) == [];
    } else {
      var v, part := high * unit + low, Power(256, b - 1);
      LowDigit(high, part, low);
      EncodeTwo(high, low / 256, a, b - 1, part);
      assert Encode(v, a + b) == Encode(v / 256, a + b - 1) + [v % 256];
      assert Encode(low, b) == Encode(low / 256, b - 1) + [low % 256];
    }
  }

  lemma LowDigit(high: nat, part: nat, low: nat)
    requires low < part * 256
    ensures low / 256 < part
    ensures (high * (part * 256) + low) / 256 == high * part + low / 256
    ensures (high * (part * 256) + low) % 256 == low % 256
  {
    MulAssociative(high, part, 256);
    QuotientRemainder(high * part + low / 256, low % 256, 256);
  }

  lemma EncodeHalves(high: nat, low: nat, n: nat, unit: nat)
    requires unit == Power(256, n) && low < unit
    ensures Encode(high, n) + Encode(low, n) == Encode(Paste(high, low, unit), 2 * n)
  {
    EncodeTwo(high, low, n, n, unit);
  }

  function Paste(high: nat, low: nat, unit: nat): nat { high * unit + low }

  lemma WordIsPower()
    ensures Power(256, 8) == WORD
  {
    assert Power(256, 4) == 0x1_0000_0000;
  }

  lemma EncodeWords(t0: nat, t1: nat)
    requires t0 < WORD
    ensures Encode(t1, 8) + Encode(t0, 8) == Encode(Join(t0, t1), 16)
  {
    WordIsPower();
    EncodeHalves(t1, t0, 8, WORD);
  }

  /** The first n bits of some, then a one and k zeros. */
  predicate Stops(bits: seq<bool>, of: seq<bool>, n: nat, k: nat)
    requires n <= |of|
  {
    bits == of[..n] + ([true] + Falses(k))
  }

  lemma {:induction false} StopBits(x: nat, n: nat, k: nat)
    ensures Stops(NumberBits(Cleared(x, k + 1) + Power(2, k), n + k + 1), NumberBits(x, n + k + 1), n, k)
    decreases k
  {
    var y := Cleared(x, k + 1) + Power(2, k);
    if k == 0 {
      assert Cleared(x, 1) == 2 * Cleared(x / 2, 0) == 2 * (x / 2);
      assert y == 2 * (x / 2) + 1;
      assert y / 2 == x / 2 && y % 2 == 1;
      assert NumberBits(x, n + 1)[..n] == NumberBits(x / 2, n);
    } else {
      StopBits(x / 2, n, k - 1);
      assert y / 2 == Cleared(x / 2, k) + Power(2, k - 1);
      assert NumberBits(x, n + k + 1)[..n] == NumberBits(x / 2, n + k)[..n];
      assert Falses(k) == Falses(k - 1) + [false];
    }
  }

  lemma LastBits(ub: nat, n: nat)
    requires n < 8
    ensures Stops(Bits([LastByte(ub, n)]), NumberBits(ub, 8), n, 7 - n)
  {
    var k := 7 - n;
    var y := Cleared(ub, k + 1) + Power(2, k);
    assert n + k + 1 == 8 && LastByte(ub, n) == y % 256;
    LowestByte(y);
    StopBits(ub, n, k);
    assert Stops(NumberBits(y, 8), NumberBits(ub, 8), n, k);
  }

  lemma LowestByte(y: nat)
    ensures Bits([y % 256]) == NumberBits(y, 8)
  {
    ByteBits(y);
    BitsOne(y % 256);
  }

  lemma LastBit(init: seq<nat>, x: nat)
    ensures Bits(init + [x]) == Bits(init) + NumberBits(x / 2, 7) + [x % 2 == 1]
  {
    BitsLast(init, x);
    assert NumberBits(x, 8) == NumberBits(x / 2, 7) + [x % 2 == 1];
  }

  lemma SamePrefix<T>(a: seq<T>, x: T, b: seq<T>, y: T)
    requires a + [x] == b + [y]
    ensures a == b && x == y
  {
    assert a == (a + [x])[..|a|] && b == (b + [y])[..|b|];
    assert (a + [x])[|a|] == x && (b + [y])[|b|] == y;
  }

  lemma MarkBits(s: seq<nat>, b: seq<bool>, marker: bool)
    requires s != [] && Bits(s) == b + [false]
    ensures Bits(Mark(s, marker)) == b + [marker]
  {
    if marker {
      var init, x := s[..|s| - 1], s[|s| - 1];
      assert s == init + [x];
      LastBit(init, x);
      SamePrefix(b, false, Bits(init) + NumberBits(x / 2, 7), x % 2 == 1);
      var y := x / 2 * 2 + 1;
      LastBit(init, y);
      assert y / 2 == x / 2 && y % 2 == 1;
      assert Mark(s, true) == init + [y];
    }
  }

  /** The one bit and the zeros after it, over so many bytes. */
  lemma OpenBits(ub: nat, n: nat, k: nat, zeros: nat)
    requires n < 8 && zeros == 7 - n + 8 * k
    ensures Bits([LastByte(ub, n)] + Zeros(k)) == NumberBits(ub, 8)[..n] + [true] + Falses(zeros)
  {
    BitsAppend([LastByte(ub, n)], Zeros(k));
    LastBits(ub, n);
    BitsOfZeros(k);
    OpenFalses(Bits([LastByte(ub, n)]), NumberBits(ub, 8), n, 7 - n, 8 * k, zeros);
  }

  lemma OpenFalses(bits: seq<bool>, of: seq<bool>, n: nat, a: nat, b: nat, zeros: nat)
    requires n <= |of| && zeros == a + b && Stops(bits, of, n, a)
    ensures bits + Falses(b) == of[..n] + [true] + Falses(zeros)
  {
    assert Falses(zeros) == Falses(a) + Falses(b);
  }

  lemma OpenMark(s: seq<nat>, top: seq<bool>, zeros: nat, marker: bool)
    requires s != [] && Bits(s) == top + [true] + Falses(zeros + 1)
    ensures Bits(Mark(s, marker)) == Extended(top, zeros, marker, [])
  {
    assert Falses(zeros + 1) == Falses(zeros) + [false];
    assert top + [true] + Falses(zeros + 1) == (top + [true] + Falses(zeros)) + [false];
    MarkBits(s, top + [true] + Falses(zeros), marker);
  }

  lemma ExtendedEnd(top: seq<bool>, zeros: nat, marker: bool, length: seq<bool>)
    ensures Extended(top, zeros, marker, []) + length == Extended(top, zeros, marker, length)
  {
  }

  lemma ExtendedStart(m: seq<bool>, top: seq<bool>, zeros: nat, marker: bool, length: seq<bool>)
    ensures Extended(m + top, zeros, marker, length) == m + Extended(top, zeros, marker, length)
  {
  }

  lemma ExtendedZeros(top: seq<bool>, first: nat, second: nat, zeros: nat, marker: bool, length: seq<bool>,
                      a: seq<bool>, b: seq<bool>)
    requires a == top + [true] + Falses(first) && b == Falses(second) + [marker] + length && zeros == first + second
    ensures Extended(top, zeros, marker, length) == a + b
  {
    assert Falses(zeros) == Falses(first) + Falses(second);
  }

  /** How many zeros the ending puts between the one bit and the marker. */
  function Gap(ptr: nat, n: nat): nat
    requires ptr < 128 && n < 8
  {
    if Fits(ptr, n) then 894 - (8 * ptr + n) else 7 - n + 8 * (127 - ptr) + 895
  }

  lemma GapIs(size: nat, n: nat)
    requires n < 8
    ensures (894 - (8 * size + n)) % 1024 == Gap(size % 128, n)
  {
    var q, ptr := size / 128, size % 128;
    assert 8 * size + n == 1024 * q + (8 * ptr + n);
    ModShift(894 - (8 * size + n), Gap(ptr, n), if Fits(ptr, n) then q else q + 1);
  }

  lemma ModShift(x: int, r: nat, k: nat)
    requires x == r - 1024 * k && r < 1024
    ensures x % 1024 == r
  {
  }

  lemma ExtraBits(marker: bool, length: seq<nat>, zeros: nat)
    requires zeros == 895
    ensures Bits(Finish(Zeros(112), marker, length)) == Falses(zeros) + [marker] + Bits(length)
  {
    BitsOfZeros(112);
    FalsesAppend(zeros, 1);
    assert Falses(1) == [false];
    MarkBits(Zeros(112), Falses(zeros), marker);
    BitsAppend(Mark(Zeros(112), marker), length);
  }

  /** The bytes are some first bits, a one, so many zeros, the marker and the length. */
  predicate Closes(bytes: seq<nat>, top: seq<bool>, zeros: nat, marker: bool, length: seq<bool>) {
    Bits(bytes) == Extended(top, zeros, marker, length)
  }

  lemma ShortEnding(ptr: nat, ub: nat, n: nat, marker: bool, length: seq<nat>, zeros: nat)
    requires ptr < 112 && n < 8 && zeros == 894 - (8 * ptr + n)
    ensures Closes(Finish([LastByte(ub, n)] + Zeros(111 - ptr), marker, length),
              NumberBits(ub, 8)[..n], zeros, marker, Bits(length))
  {
    ShortOpen([LastByte(ub, n)] + Zeros(111 - ptr), ub, n, 111 - ptr, zeros, marker, length);
  }

  lemma ShortOpen(open: seq<nat>, ub: nat, n: nat, k: nat, zeros: nat, marker: bool, length: seq<nat>)
    requires n < 8 && open == [LastByte(ub, n)] + Zeros(k) && zeros + 1 == 7 - n + 8 * k
    ensures Closes(Finish(open, marker, length), NumberBits(ub, 8)[..n], zeros, marker, Bits(length))
  {
    OpenBits(ub, n, k, zeros + 1);
    FinishBits(open, NumberBits(ub, 8)[..n], zeros, marker, length);
  }

  lemma FinishBits(open: seq<nat>, top: seq<bool>, zeros: nat, marker: bool, length: seq<nat>)
    requires open != [] && Bits(open) == top + [true] + Falses(zeros + 1)
    ensures Closes(Finish(open, marker, length), top, zeros, marker, Bits(length))
  {
    OpenMark(open, top, zeros, marker);
    BitsAppend(Mark(open, marker), length);
    ExtendedEnd(top, zeros, marker, Bits(length));
  }

  lemma LongEnding(ptr: nat, ub: nat, n: nat, marker: bool, length: seq<nat>, first: nat, second: nat, zeros: nat)
    requires ptr < 128 && n < 8 && first == 7 - n + 8 * (127 - ptr) && second == 895 && zeros == first + second
    ensures Closes(Fill(ptr, ub, n) + Finish(Zeros(112), marker, length),
              NumberBits(ub, 8)[..n], zeros, marker, Bits(length))
  {
    OpenBits(ub, n, 127 - ptr, first);
    ExtraBits(marker, length, second);
    TwoParts(Fill(ptr, ub, n), Finish(Zeros(112), marker, length), NumberBits(ub, 8)[..n], first, second, zeros,
      marker, Bits(length));
  }

  lemma TwoParts(fill: seq<nat>, extra: seq<nat>, top: seq<bool>, first: nat, second: nat, zeros: nat, marker: bool,
                 length: seq<bool>)
    requires Bits(fill) == top + [true] + Falses(first) && Bits(extra) == Falses(second) + [marker] + length
    requires zeros == first + second
    ensures Closes(fill + extra, top, zeros, marker, length)
  {
    BitsAppend(fill, extra);
    ExtendedZeros(top, first, second, zeros, marker, length, Bits(fill), Bits(extra));
  }

  lemma EndingBits(ptr: nat, ub: nat, n: nat, marker: bool, length: seq<nat>)
    requires ptr < 128 && n < 8 && |length| == 16
    ensures Closes(Ending(ptr, ub, n, marker, length), NumberBits(ub, 8)[..n], Gap(ptr, n), marker, Bits(length))
  {
    if Fits(ptr, n) {
      ShortEnding(ptr, ub, n, marker, length, Gap(ptr, n));
    } else {
      LongEnding(ptr, ub, n, marker, length, 7 - n + 8 * (127 - ptr), 895, Gap(ptr, n));
    }
  }

  lemma PaddedIs(message: seq<bool>, zeros: nat, marker: bool, total: nat)
    requires |message| == total && (894 - total) % 1024 == zeros
    ensures Padded(message, marker) == Extended(message, zeros, marker, NumberBits(total % DOUBLE, 128))
  {
  }

  lemma PaddedWhole(m: seq<nat>, ending: seq<nat>, top: seq<bool>, zeros: nat, marker: bool, total: nat,
                    length: seq<bool>)
    requires total == 8 * |m| + |top| && (894 - total) % 1024 == zeros && length == NumberBits(total % DOUBLE, 128)
    requires Closes(ending, top, zeros, marker, length)
    ensures Pads(m + ending, Bits(m) + top, marker)
  {
    BitsAppend(m, ending);
    ExtendedStart(Bits(m), top, zeros, marker, length);
    PaddedIs(Bits(m) + top, zeros, marker, total);
  }

  lemma PaddedFor(m: seq<nat>, ptr: nat, ub: nat, n: nat, marker: bool, total: nat, length: seq<nat>)
    requires n < 8 && ptr == |m| % 128 && total == 8 * |m| + n
    requires |length| == 16 && Bits(length) == NumberBits(total % DOUBLE, 128)
    ensures Pads(m + Ending(ptr, ub, n, marker, length), MessageBits(m, ub, n), marker)
  {
    GapIs(|m|, n);
    EndingBits(ptr, ub, n, marker, length);
    PaddedWhole(m, Ending(ptr, ub, n, marker, length), NumberBits(ub, 8)[..n], Gap(ptr, n), marker, total,
      Bits(length));
  }

  /** The bytes hashed are the padded message, bit for bit. */
  lemma PaddedBits(m: seq<nat>, ub: nat, n: nat, marker: bool)
    requires n < 8
    ensures Pads(PaddedBytes(m, ub, n, marker), MessageBits(m, ub, n), marker)
  {
    var total := 8 * |m| + n;
    EncodeBits(total % DOUBLE, 16);
    PaddedFor(m, |m| % 128, ub, n, marker, total, LengthField(total));
  }

  // ----- what the last compressions give -----

  lemma FeedFull(f: Compression, r: Raw, d: seq<nat>)
    requires |r.tail| + |d| == 128
    ensures Feed(f, r, d) == Compressed(f, r, r.tail + d)
  {
    var s := r.tail + d;
    assert Block(s, 0) == s && s[128..] == [];
    assert Fold(f, r.h, r.t, s, 1) == f(Fold(f, r.h, r.t, s, 0), Block(s, 0), CountFrom(r.t, 1));
  }

  /** After n bytes of s, j blocks are compressed and the others wait. */
  ghost predicate Reached(f: Compression, start: Raw, s: seq<nat>, r: Raw, j: nat, n: nat) {
    && 128 * j <= n <= |s| && n < 128 * (j + 1)
    && r.h == Fold(f, start.h, start.t, s, j) && r.t == CountFrom(start.t, j) && r.tail == s[128 * j..n]
  }

  lemma ReachPart(f: Compression, start: Raw, s: seq<nat>, r: Raw, j: nat, n: nat, c: nat)
    requires Reached(f, start, s, r, j, n) && n + c <= |s| && n + c < 128 * (j + 1)
    ensures Reached(f, start, s, Raw(r.h, r.t, r.tail + s[n..n + c]), j, n + c)
  {
    assert s[128 * j..n] + s[n..n + c] == s[128 * j..n + c];
  }

  lemma ReachBlock(f: Compression, start: Raw, s: seq<nat>, r: Raw, j: nat, n: nat, c: nat)
    requires Reached(f, start, s, r, j, n) && n + c == 128 * (j + 1) <= |s|
    ensures Reached(f, start, s, Compressed(f, r, r.tail + s[n..n + c]), j + 1, n + c)
  {
    assert r.tail + s[n..n + c] == Block(s, j);
    CountsOn(start.t, j, 1, j + 1);
    assert s[128 * (j + 1)..n + c] == [];
  }

  lemma ReachEnd(f: Compression, start: Raw, data: seq<nat>, r: Raw, j: nat)
    requires Reached(f, start, start.tail + data, r, j, |start.tail + data|)
    ensures r == Feed(f, start, data)
  {
    var s := start.tail + data;
    assert |s| / 128 == j && s[128 * j..|s|] == s[128 * j..];
  }

  lemma EndBytes(m: seq<nat>, d: seq<nat>, p: seq<nat>, k: nat)
    requires 128 * k <= |m| && 128 * (k + 1) == |m| + |d| <= |p| && p[..|m| + |d|] == m + d
    ensures p[..|m|] == m && Block(p, k) == m[128 * k..] + d
  {
    var q := p[..|m| + |d|];
    assert q[..|m|] == p[..|m|] && q[128 * k..] == Block(p, k);
  }

  /** The block that holds the end of the message. */
  lemma EndBlock(f: Compression, iv: State, r: Raw, m: seq<nat>, n: nat, d: seq<nat>, p: seq<nat>, k: nat, total: nat)
    requires Took(f, iv, r, m) && n < 8 && |r.tail| + |d| == 128 && k == |m| / 128 && total == 8 * |m| + n
    requires |m| + |d| <= |p| && p[..|m| + |d|] == m + d
    ensures 128 * (k + 1) == |m| + |d|
    ensures Chain(f, iv, p, total, k + 1) ==
      f(r.h, r.tail + d, if 8 * |r.tail| + n == 0 then 0 else total % DOUBLE)
  {
    assert |m| == 128 * k + |r.tail|;
    EndBytes(m, d, p, k);
    ChainPrefix(f, iv, m, 8 * |m|, p, total, k);
    EndCounter(k, 8 * |r.tail| + n);
    ChainStep(f, iv, p, total, k, k + 1);
  }

  lemma EndCounter(k: nat, bits: nat)
    requires bits < 1024
    ensures Counter(k, 1024 * k + bits) == if bits == 0 then 0 else (1024 * k + bits) % DOUBLE
    ensures Counter(k + 1, 1024 * k + bits) == 0
  {
  }

  /** A block with padding only. */
  lemma ExtraStep(f: Compression, iv: State, p: seq<nat>, total: nat, k: nat, extra: seq<nat>)
    requires |p| == 128 * (k + 2) && p[128 * (k + 1)..] == extra && total <= 1024 * (k + 1)
    ensures Chain(f, iv, p, total, k + 2) == f(Chain(f, iv, p, total, k + 1), extra, 0)
  {
    assert Block(p, k + 1) == extra;
    ChainStep(f, iv, p, total, k + 1, k + 2);
  }

  /** The counter t is set for the last message block. */
  ghost predicate Ready(t: nat, m: seq<nat>, n: nat) {
    (t + 1024) % DOUBLE == if 8 * (|m| % 128) + n == 0 then 0 else (8 * |m| + n) % DOUBLE
  }

  lemma TookCounts(f: Compression, iv: State, r: Raw, m: seq<nat>)
    requires Took(f, iv, r, m)
    ensures r.t == CountFrom(0, |m| / 128) && |r.tail| == |m| % 128
  {
  }

  lemma IsReady(t: nat, count: nat, m: seq<nat>, n: nat, bits: nat, total: nat)
    requires bits == 8 * (|m| % 128) + n && total == 8 * |m| + n && total % DOUBLE == count + bits
    requires (t + 1024) % DOUBLE == if bits == 0 then 0 else count + bits
    ensures Ready(t, m, n)
  {
  }

  lemma LastStep(f: Compression, iv: State, r: Raw, t: nat, m: seq<nat>, n: nat, d: seq<nat>, p: seq<nat>, k: nat)
    requires Took(f, iv, r, m) && Ready(t, m, n) && n < 8 && |r.tail| + |d| == 128 && k == |m| / 128
    requires |m| + |d| <= |p| && p[..|m| + |d|] == m + d
    ensures 128 * (k + 1) == |m| + |d|
    ensures Compressed(f, At(r, t), r.tail + d).h == Chain(f, iv, p, 8 * |m| + n, k + 1)
  {
    EndBlock(f, iv, r, m, n, d, p, k, 8 * |m| + n);
  }

  lemma ShortClose(f: Compression, iv: State, r: Raw, t: nat, m: seq<nat>, n: nat, d: seq<nat>, p: seq<nat>)
    requires Took(f, iv, r, m) && Ready(t, m, n) && n < 8 && |r.tail| + |d| == 128 && p == m + d
    ensures Reaches(f, iv, p, 8 * |m| + n, Compressed(f, At(r, t), r.tail + d).h)
  {
    var k := |m| / 128;
    assert p[..|m| + |d|] == p;
    LastStep(f, iv, r, t, m, n, d, p, k);
    assert |p| / 128 == k + 1;
  }

  lemma CompressedZero(f: Compression, r: Raw, block: seq<nat>)
    ensures Compressed(f, At(r, DOUBLE - 1024), block).h == f(r.h, block, 0)
  {
    assert (DOUBLE - 1024 + 1024) % DOUBLE == 0;
  }

  /** The value is the chain over all of p. */
  ghost predicate Reaches(f: Compression, iv: State, p: seq<nat>, total: nat, h: State) {
    h == Chain(f, iv, p, total, |p| / 128)
  }

  lemma ExtraClose(f: Compression, iv: State, r: Raw, p: seq<nat>, total: nat, k: nat, extra: seq<nat>)
    requires |p| == 128 * (k + 2) && p[128 * (k + 1)..] == extra && total <= 1024 * (k + 1)
    requires r.h == Chain(f, iv, p, total, k + 1)
    ensures Reaches(f, iv, p, total, Compressed(f, At(r, DOUBLE - 1024), extra).h)
  {
    CompressedZero(f, r, extra);
    ExtraStep(f, iv, p, total, k, extra);
    assert |p| / 128 == k + 2;
  }

  lemma LongSlices(m: seq<nat>, d: seq<nat>, extra: seq<nat>, p: seq<nat>, k: nat, n: nat)
    requires 128 * (k + 1) == |m| + |d| && |extra| == 128 && p == m + d + extra && d != [] && n < 8
    ensures |p| == 128 * (k + 2) && p[..|m| + |d|] == m + d && p[128 * (k + 1)..] == extra
    ensures 8 * |m| + n <= 1024 * (k + 1)
  {
  }

  lemma LongClose(f: Compression, iv: State, r: Raw, t: nat, m: seq<nat>, n: nat, d: seq<nat>, extra: seq<nat>,
                  p: seq<nat>)
    requires Took(f, iv, r, m) && Ready(t, m, n) && n < 8
    requires |r.tail| + |d| == 128 && |extra| == 128 && p == m + d + extra
    ensures Reaches(f, iv, p, 8 * |m| + n,
      Compressed(f, At(Compressed(f, At(r, t), r.tail + d), DOUBLE - 1024), extra).h)
  {
    var k := |m| / 128;
    LongSlices(m, d, extra, p, k, n);
    LastStep(f, iv, r, t, m, n, d, p, k);
    ExtraClose(f, iv, Compressed(f, At(r, t), r.tail + d), p, 8 * |m| + n, k, extra);
  }

  lemma PaddedOne(m: seq<nat>, ptr: nat, ub: nat, n: nat, marker: bool, length: seq<nat>)
    requires ptr < 128 && n < 8 && |length| == 16 && Fits(ptr, n)
    ensures PaddedWith(m, ptr, ub, n, marker, length) ==
      m + Finish([LastByte(ub, n)] + Zeros(111 - ptr), marker, length)
  {
  }

  lemma PaddedTwo(m: seq<nat>, ptr: nat, ub: nat, n: nat, marker: bool, length: seq<nat>)
    requires ptr < 128 && n < 8 && |length| == 16 && !Fits(ptr, n)
    ensures PaddedWith(m, ptr, ub, n, marker, length) ==
      m + Fill(ptr, ub, n) + Finish(Zeros(112), marker, length)
  {
    Associates(m, Fill(ptr, ub, n), Finish(Zeros(112), marker, length));
  }

  lemma CloseShort(f: Compression, iv: State, r: Raw, t: nat, m: seq<nat>, ptr: nat, ub: nat, n: nat, marker: bool,
                   length: seq<nat>, e: seq<nat>, p: seq<nat>)
    requires Took(f, iv, r, m) && Ready(t, m, n) && |r.tail| == ptr < 128 && n < 8 && |length| == 16 && Fits(ptr, n)
    requires p == PaddedWith(m, ptr, ub, n, marker, length)
    requires e == Finish([LastByte(ub, n)] + Zeros(111 - ptr), marker, length)
    ensures Reaches(f, iv, p, 8 * |m| + n, Compressed(f, At(r, t), r.tail + e).h)
  {
    PaddedOne(m, ptr, ub, n, marker, length);
    ShortClose(f, iv, r, t, m, n, e, p);
  }

  lemma CloseLong(f: Compression, iv: State, r: Raw, t: nat, m: seq<nat>, ptr: nat, ub: nat, n: nat, marker: bool,
                  length: seq<nat>, fill: seq<nat>, extra: seq<nat>, p: seq<nat>)
    requires Took(f, iv, r, m) && Ready(t, m, n) && |r.tail| == ptr < 128 && n < 8 && |length| == 16 && !Fits(ptr, n)
    requires p == PaddedWith(m, ptr, ub, n, marker, length)
    requires fill == Fill(ptr, ub, n) && extra == Finish(Zeros(112), marker, length)
    ensures Reaches(f, iv, p, 8 * |m| + n,
      Compressed(f, At(Compressed(f, At(r, t), r.tail + fill), DOUBLE - 1024), extra).h)
  {
    PaddedTwo(m, ptr, ub, n, marker, length);
    LongClose(f, iv, r, t, m, n, fill, extra, p);
  }

  /** The count and the length field that closing works with. */
  lemma Prepared(t0: nat, t1: nat, m: seq<nat>, ptr: nat, n: nat, bits: nat, total: nat)
    requires t0 < WORD && t1 < WORD && Join(t0, t1) == CountFrom(0, |m| / 128)
    requires ptr == |m| % 128 && n < 8 && bits == 8 * ptr + n && total == 8 * |m| + n
    ensures t0 % 1024 == 0 && t0 + bits < WORD && total % DOUBLE == Join(t0, t1) + bits
    ensures Encode(t1, 8) + Encode(t0 + bits, 8) == LengthField(total)
  {
    var k := |m| / 128;
    JoinDivides(t0, t1, k);
    TotalCount(t0, t1, k, bits, total);
    FieldOf(t0 + bits, t1, total);
  }

  lemma TookPrepared(f: Compression, iv: State, r: Raw, t0: nat, t1: nat, m: seq<nat>, ptr: nat, n: nat, bits: nat,
                     total: nat)
    requires Took(f, iv, r, m) && t0 < WORD && t1 < WORD && r.t == Join(t0, t1) && |r.tail| == ptr
    requires n < 8 && bits == 8 * ptr + n && total == 8 * |m| + n
    ensures ptr == |m| % 128 && t0 % 1024 == 0 && total % DOUBLE == Join(t0, t1) + bits
    ensures Encode(t1, 8) + Encode((t0 + bits) % WORD, 8) == LengthField(total)
  {
    TookCounts(f, iv, r, m);
    Prepared(t0, t1, m, ptr, n, bits, total);
    SmallMod(t0 + bits, WORD);
  }

  lemma FieldOf(low: nat, high: nat, total: nat)
    requires low < WORD && total % DOUBLE == Join(low, high)
    ensures Encode(high, 8) + Encode(low, 8) == LengthField(total)
  {
    EncodeWords(low, high);
  }

  // ----- the context -----

  /** The digest: the first words of the chain value, highest byte first. */
  function Output(h: State, size: nat): (b: seq<nat>)
    requires size <= 8
    ensures |b| == 8 * size
  {
    if size == 0 then [] else Output(h, size - 1) + Encode(h.Word(size - 1), 8)
  }

  lemma {:induction false} EncodeValue(v: nat, n: nat)
    ensures Power(256, n) > 0 && Value(Encode(v, n), 256) == v % Power(256, n)
    decreases n
  {
    PowerPositive(256, n);
    if n > 0 {
      EncodeValue(v / 256, n - 1);
      ValuePush(Encode(v / 256, n - 1), v % 256, 256);
      LowPart(v, Power(256, n - 1));
    }
  }

  lemma LowPart(v: nat, unit: nat)
    requires unit > 0
    ensures v % (unit * 256) == v / 256 % unit * 256 + v % 256
  {
    var h := v / 256;
    var q, r := h / unit, h % unit;
    DivMod(h, unit);
    MulAssociative(q, unit, 256);
    assert v == q * (unit * 256) + (r * 256 + v % 256);
    QuotientRemainder(q, r * 256 + v % 256, unit * 256);
  }

  /** The bytes spell these words: eight bytes each, highest byte first. */
  ghost predicate Spells(bytes: seq<nat>, h: State, size: nat)
    requires size <= 8
  {
    |bytes| == 8 * size && forall k :: 0 <= k < size ==> Value(bytes[8 * k..8 * k + 8], 256) == h.Word(k) % WORD
  }

  lemma {:induction false} OutputSpells(h: State, size: nat)
    requires size <= 8
    ensures Spells(Output(h, size), h, size)
  {
    if size > 0 {
      OutputSpells(h, size - 1);
      SpellsMore(Output(h, size - 1), h, size - 1);
    }
  }

  lemma SpellsMore(bytes: seq<nat>, h: State, size: nat)
    requires size < 8 && Spells(bytes, h, size)
    ensures Spells(bytes + Encode(h.Word(size), 8), h, size + 1)
  {
    var last := Encode(h.Word(size), 8);
    EncodeValue(h.Word(size), 8);
    WordIsPower();
    var all := bytes + last;
    forall k | 0 <= k < size + 1 ensures Value(all[8 * k..8 * k + 8], 256) == h.Word(k) % WORD {
      if k < size {
        assert all[8 * k..8 * k + 8] == bytes[8 * k..8 * k + 8];
      } else {
        assert all[8 * k..8 * k + 8] == last;
      }
    }
  }

  /** The digest of a message. */
  ghost function Digest(f: Compression, iv: State, m: seq<nat>, ub: nat, n: nat, size: nat): seq<nat>
    requires n < 8 && size <= 8
  {
    DigestOf(f, iv, PaddedBytes(m, ub, n, size == 8), 8 * |m| + n, size)
  }

  /** The first words of the chain value over all blocks of p. */
  ghost function DigestOf(f: Compression, iv: State, p: seq<nat>, total: nat, size: nat): seq<nat>
    requires size <= 8
  {
    Output(Chain(f, iv, p, total, |p| / 128), size)
  }

  lemma DigestSpells(f: Compression, iv: State, m: seq<nat>, ub: nat, n: nat, size: nat)
    requires n < 8 && size <= 8
    ensures var p := PaddedBytes(m, ub, n, size == 8);
      && var dst, last := Digest(f, iv, m, ub, n, size), Chain(f, iv, p, 8 * |m| + n, |p| / 128);
      && |dst| == 8 * size
      && forall k :: 0 <= k < size ==> Value(dst[8 * k..8 * k + 8], 256) == last.Word(k) % WORD
  {
    var p := PaddedBytes(m, ub, n, size == 8);
    OutputSpells(Chain(f, iv, p, 8 * |m| + n, |p| / 128), size);
  }

  lemma {:induction false} EncodeValid(v: nat, n: nat)
    ensures Valid(Encode(v, n), 256)
    decreases n
  {
    if n > 0 { EncodeValid(v / 256, n - 1); }
  }

  lemma MarkValid(s: seq<nat>, marker: bool)
    requires s != [] && Valid(s, 256)
    ensures Valid(Mark(s, marker), 256)
  {
  }

  lemma PaddedValid(m: seq<nat>, ub: nat, n: nat, marker: bool)
    requires Valid(m, 256) && n < 8
    ensures Valid(PaddedBytes(m, ub, n, marker), 256)
  {
    var ptr := |m| % 128;
    EncodeValid((8 * |m| + n) % DOUBLE, 16);
    if Fits(ptr, n) {
      MarkValid([LastByte(ub, n)] + Zeros(111 - ptr), marker);
    } else {
      MarkValid(Zeros(112), marker);
    }
  }

  /** The bytes hashed are the only ones with the bits of the padded message. */
  lemma OnlyPadding(p: seq<nat>, m: seq<nat>, ub: nat, n: nat, marker: bool)
    requires Valid(p, 256) && Valid(m, 256) && n < 8
    ensures Pads(p, MessageBits(m, ub, n), marker) <==> p == PaddedBytes(m, ub, n, marker)
  {
    var q := PaddedBytes(m, ub, n, marker);
    PaddedBits(m, ub, n, marker);
    PaddedValid(m, ub, n, marker);
    if Pads(p, MessageBits(m, ub, n), marker) { BytesOfBits(p, q); }
  }

  lemma SamePadding(m: seq<nat>, ub: nat, n: nat, m': seq<nat>, ub': nat, n': nat, marker: bool)
    requires Valid(m, 256) && Valid(m', 256) && n < 8 && n' < 8
    requires MessageBits(m, ub, n) == MessageBits(m', ub', n')
    ensures PaddedBytes(m, ub, n, marker) == PaddedBytes(m', ub', n', marker) && 8 * |m| + n == 8 * |m'| + n'
  {
    var p := PaddedBytes(m, ub, n, marker);
    PaddedValid(m, ub, n, marker);
    OnlyPadding(p, m, ub, n, marker);
    OnlyPadding(p, m', ub', n', marker);
    assert |MessageBits(m, ub, n)| == 8 * |m| + n && |MessageBits(m', ub', n')| == 8 * |m'| + n';
  }

  /** So the digest depends on the message bits only. */
  lemma DigestOfBits(f: Compression, iv: State, m: seq<nat>, ub: nat, n: nat, m': seq<nat>, ub': nat, n': nat,
                     size: nat)
    requires Valid(m, 256) && Valid(m', 256) && n < 8 && n' < 8 && size <= 8
    requires MessageBits(m, ub, n) == MessageBits(m', ub', n')
    ensures Digest(f, iv, m, ub, n, size) == Digest(f, iv, m', ub', n', size)
  {
    var marker := size == 8;
    SamePadding(m, ub, n, m', ub', n', marker);
    assert DigestOf(f, iv, PaddedBytes(m, ub, n, marker), 8 * |m| + n, size) ==
      DigestOf(f, iv, PaddedBytes(m', ub', n', marker), 8 * |m'| + n', size);
  }

  lemma DigestFrom(f: Compression, iv: State, m: seq<nat>, ptr: nat, ub: nat, n: nat, size: nat, p: seq<nat>, h: State)
    requires n < 8 && size <= 8 && ptr == |m| % 128
    requires p == PaddedWith(m, ptr, ub, n, size == 8, LengthField(8 * |m| + n)) && Reaches(f, iv, p, 8 * |m| + n, h)
    ensures Output(h, size) == Digest(f, iv, m, ub, n, size)
  {
    assert p == PaddedBytes(m, ub, n, size == 8);
  }

  class Context {
    const f: Compression
    const iv: State
    const buf: array<nat>
    var ptr: nat
    var h: State
    var t0: nat
    var t1: nat
    ghost var message: seq<nat>

    ghost predicate Shape()
      reads this
    {
      buf.Length == 128 && ptr < 128 && t0 < WORD && t1 < WORD
    }

    ghost function Value(): (r: Raw)
      requires Shape()
      reads this, buf
      ensures |r.tail| == ptr
    {
      Raw(h, Join(t0, t1), buf[..ptr])
    }

    /** The context stands for the bytes fed so far. */
    ghost predicate Valid()
      reads this, buf
    {
      Shape() && Took(f, iv, Value(), message)
    }

    constructor (f: Compression, iv: State)
      ensures Valid() && message == [] && fresh(buf) && this.f == f && this.iv == iv
    {
      this.f, this.iv, this.buf := f, iv, new nat[128];
      ptr, h, t0, t1, message := 0, iv, 0, 0, [];
    }

    method Init()
      requires buf.Length == 128
      modifies this
      ensures Valid() && message == []
    {
      h, t0, t1, ptr, message := iv, 0, 0, 0, [];
    }

    /** Copies n bytes of the data, from an offset on, behind those waiting. */
    method Copy(data: seq<nat>, from: nat, n: nat)
      requires Shape() && from + n <= |data| && ptr + n <= 128
      modifies buf
      ensures buf[..ptr + n] == old(buf[..ptr]) + data[from..from + n]
    {
      var i := 0;
      while i < n
        invariant i <= n && buf[..ptr + i] == old(buf[..ptr]) + data[from..from + i]
      {
        buf[ptr + i] := data[from + i];
        assert buf[..ptr + i + 1] == buf[..ptr + i] + [data[from + i]];
        assert data[from..from + i + 1] == data[from..from + i] + [data[from + i]];
        i := i + 1;
      }
    }

    /** Moves the counter on and compresses the full buffer. */
    method CompressBuffer(ghost r: Raw, ghost block: seq<nat>)
      requires buf.Length == 128 && t0 < WORD && t1 < WORD && buf[..] == block && r.h == h && r.t == Join(t0, t1)
      modifies this
      ensures Shape() && ptr == 0 && message == old(message)
      ensures Value() == Compressed(f, r, block)
    {
      Counted(f, r, block, t0, t1);
      t0 := (t0 + 1024) % WORD;
      if t0 < 1024 { t1 := (t1 + 1) % WORD; }
      h := f(h, buf[..], Join(t0, t1));
      ptr := 0;
    }

    /** One round of the copying loop. */
    method TakePiece(data: seq<nat>, done: nat, ghost start: Raw, ghost s: seq<nat>, ghost j: nat)
      returns (done': nat, ghost j': nat)
      requires Shape() && done < |data| && s == start.tail + data
      requires Reached(f, start, s, Value(), j, |start.tail| + done)
      modifies this, buf
      ensures done < done' <= |data| && Shape() && message == old(message)
      ensures Reached(f, start, s, Value(), j', |start.tail| + done')
    {
      ghost var n, before := |start.tail| + done, Value();
      var clen := 128 - ptr;
      if clen > |data| - done { clen := |data| - done; }
      ghost var piece := s[n..n + clen];
      Offset(start.tail, data, done, clen);
      if ptr + clen == 128 {
        ReachBlock(f, start, s, before, j, n, clen);
      } else {
        ReachPart(f, start, s, before, j, n, clen);
      }
      done' := done + clen;
      j' := if ptr + clen == 128 then j + 1 else j;
      TakeBytes(data, done, clen, before, piece);
    }

    /** Copies a piece into the buffer, and compresses the buffer if that fills it. */
    method TakeBytes(data: seq<nat>, done: nat, clen: nat, ghost before: Raw, ghost piece: seq<nat>)
      requires Shape() && done + clen <= |data| && ptr + clen <= 128
      requires before == Value() && piece == data[done..done + clen]
      modifies this, buf
      ensures Shape() && message == old(message)
      ensures Value() == if old(ptr) + clen == 128 then Compressed(f, before, before.tail + piece)
                         else Raw(before.h, before.t, before.tail + piece)
    {
      Copy(data, done, clen);
      if ptr + clen == 128 {
        assert buf[..] == buf[..ptr + clen];
        CompressBuffer(before, before.tail + piece);
      } else {
        ptr := ptr + clen;
      }
    }

    method Blake64(data: seq<nat>)
      requires Shape()
      modifies this, buf
      ensures Shape() && message == old(message)
      ensures Value() == Feed(f, old(Value()), data)
    {
      ghost var start, s, j := Value(), Value().tail + data, 0;
      assert s[128 * 0..ptr] == start.tail;
      assert Reached(f, start, s, start, 0, ptr);
      if |data| < 128 - ptr {
        ReachPart(f, start, s, start, 0, ptr, |data|);
        Offset(start.tail, data, 0, |data|);
        Copy(data, 0, |data|);
        ptr := ptr + |data|;
        ReachEnd(f, start, data, Value(), 0);
        return;
      }
      var done := 0;
      while done < |data|
        invariant done <= |data| && Shape() && message == old(message)
        invariant Reached(f, start, s, Value(), j, |start.tail| + done)
      {
        done, j := TakePiece(data, done, start, s, j);
      }
      ReachEnd(f, start, data, Value(), j);
    }

    method Update(data: seq<nat>)
      requires Valid()
      modifies this, buf
      ensures Valid() && message == old(message) + data
    {
      FeedTakes(f, iv, Value(), message, data);
      Blake64(data);
      message := message + data;
    }

    /** Sets the counter for a block that holds the given number of message bits. */
    method SetCounter(n: nat, bits: nat, ghost m: seq<nat>, ghost count: nat, ghost total: nat)
      requires Shape() && t0 % 1024 == 0 && n < 8 && count == Join(t0, t1)
      requires bits == 8 * (|m| % 128) + n && total == 8 * |m| + n && total % DOUBLE == count + bits
      modifies this`t0, this`t1
      ensures Shape() && Ready(Join(t0, t1), m, n)
    {
      var low, high := LastLow(t0, bits), LastHigh(t0, t1, bits);
      LastCount(t0, t1, bits);
      IsReady(Join(low, high), count, m, n, bits, total);
      t0, t1 := low, high;
    }

    /** The length field and the counter for the last message block. */
    method Prepare(n: nat, ghost m: seq<nat>) returns (length: seq<nat>)
      requires Valid() && n < 8 && m == message
      modifies this`t0, this`t1
      ensures Shape() && Ready(Join(t0, t1), m, n) && length == LengthField(8 * |m| + n)
    {
      var bits := 8 * ptr + n;
      ghost var count := Join(t0, t1);
      length := LengthBytes(n, bits, m, count, 8 * |m| + n);
      SetCounter(n, bits, m, count, 8 * |m| + n);
    }

    /** The high and the low word of the message length. */
    method LengthBytes(n: nat, bits: nat, ghost m: seq<nat>, ghost count: nat, ghost total: nat)
      returns (length: seq<nat>)
      requires Valid() && n < 8 && bits == 8 * ptr + n && m == message && count == Join(t0, t1) && total == 8 * |m| + n
      ensures length == LengthField(total) && t0 % 1024 == 0
      ensures bits == 8 * (|m| % 128) + n && total % DOUBLE == count + bits
    {
      TookPrepared(f, iv, Value(), t0, t1, m, ptr, n, bits, total);
      length := Encode(t1, 8) + Encode((t0 + bits) % WORD, 8);
    }

    method FinishOne(e: seq<nat>, ghost r: Raw)
      requires Shape() && ptr + |e| == 128 && r == Value()
      modifies this, buf
      ensures h == Compressed(f, r, r.tail + e).h
    {
      FeedFull(f, r, e);
      Blake64(e);
    }

    method FinishTwo(fill: seq<nat>, extra: seq<nat>, ghost r: Raw)
      requires Shape() && ptr + |fill| == 128 && |extra| == 128 && r == Value()
      modifies this, buf
      ensures h == Compressed(f, At(Compressed(f, r, r.tail + fill), DOUBLE - 1024), extra).h
    {
      FeedFull(f, r, fill);
      Blake64(fill);
      t0, t1 := WORD - 1024, WORD - 1;
      ghost var next := At(Compressed(f, r, r.tail + fill), DOUBLE - 1024);
      assert next.tail + extra == extra;
      FinishOne(extra, next);
    }

    method FinishHash(ub: nat, n: nat, marker: bool, ghost m: seq<nat>, ghost r: Raw, ghost p: seq<nat>)
      requires Valid() && n < 8 && m == message && r == Value()
      requires p == PaddedWith(m, ptr, ub, n, marker, LengthField(8 * |m| + n))
      modifies this, buf
      ensures Reaches(f, iv, p, 8 * |m| + n, h)
    {
      var length := Prepare(n, m);
      ghost var t := Join(t0, t1);
      assert Value() == At(r, t);
      if 8 * ptr + n <= 894 {
        var e := Finish([LastByte(ub, n)] + Zeros(111 - ptr), marker, length);
        CloseShort(f, iv, r, t, m, ptr, ub, n, marker, length, e, p);
        FinishOne(e, At(r, t));
      } else {
        var fill, extra := Fill(ptr, ub, n), Finish(Zeros(112), marker, length);
        CloseLong(f, iv, r, t, m, ptr, ub, n, marker, length, fill, extra, p);
        FinishTwo(fill, extra, At(r, t));
      }
    }

    /** Writes out the first words of the chain value. */
    method Emit(size: nat) returns (dst: seq<nat>)
      requires size <= 8
      ensures dst == Output(h, size)
    {
      dst := [];
      var k := 0;
      while k < size
        invariant k <= size && dst == Output(h, k)
      {
        dst := dst + Encode(h.Word(k), 8);
        k := k + 1;
      }
    }

    /** Pads, compresses and writes out. */
    method Finalize(ub: nat, n: nat, size: nat, ghost m: seq<nat>) returns (dst: seq<nat>)
      requires Valid() && n < 8 && size <= 8 && m == message
      modifies this, buf
      ensures dst == Digest(f, iv, m, ub, n, size)
    {
      ghost var r, waiting := Value(), ptr;
      ghost var p := PaddedWith(m, waiting, ub, n, size == 8, LengthField(8 * |m| + n));
      TookCounts(f, iv, r, m);
      FinishHash(ub, n, size == 8, m, r, p);
      DigestFrom(f, iv, m, waiting, ub, n, size, p, h);
      dst := Emit(size);
    }

    /** Closes the hash and starts a new one. */
    method Close(ub: nat, n: nat, size: nat) returns (dst: seq<nat>)
      requires Valid() && n < 8 && size <= 8
      modifies this, buf
      ensures dst == Digest(f, iv, old(message), ub, n, size)
      ensures var p := PaddedBytes(old(message), ub, n, size == 8);
        && var last := Chain(f, iv, p, 8 * |old(message)| + n, |p| / 128);
        && |dst| == 8 * size
        && forall k :: 0 <= k < size ==> Digits.Value(dst[8 * k..8 * k + 8], 256) == last.Word(k) % WORD
      ensures Valid() && message == []
    {
      ghost var m := message;
      dst := Finalize(ub, n, size, m);
      DigestSpells(f, iv, m, ub, n, size);
      Init();
    }
  }

  lemma Offset<T>(a: seq<T>, b: seq<T>, i: nat, n: nat)
    requires i + n <= |b|
    ensures (a + b)[|a| + i..|a| + i + n] == b[i..i + n]
  {
  }
}
