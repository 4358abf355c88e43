/** Big numbers and their byte forms: the MPI format, the little-endian vector and the compact form. */
module BigNum {
  import opened Digits
  import opened Seqs

  // ----- the MPI format: big-endian, the top bit of the first byte is the sign -----

  function Abs(n: int): nat { if n < 0 then -n else n }

  /** The content bytes of a number, without the length header. */
  function MpiBytes(n: int): (b: seq<nat>)
    ensures Valid(b, 256)
  {
    var mag := Shortest(Abs(n), 256);
    if mag == [] then []
    else
      Signed(Body(mag), n < 0)
  }

  /** The sign goes into the top bit of the first byte. */
  function Signed(body: seq<nat>, negative: bool): (b: seq<nat>)
    requires body != [] && Valid(body, 256) && body[0] < 0x80
    ensures Valid(b, 256) && |b| == |body|
  {
    if negative then body[0 := body[0] + 0x80] else body
  }

  /** Without the sign bit. */
  function Unsigned(b: seq<nat>): seq<nat>
    requires b != []
  {
    b[0 := b[0] % 0x80]
  }

  function MpiValue(b: seq<nat>): int {
    if b == [] then 0
    else
      var mag: int := Value(Unsigned(b), 256);
      if b[0] >= 0x80 then -mag else mag
  }

  /** Bytes whose top bit is clear stand for their value. */
  lemma MpiPositive(b: seq<nat>)
    requires b != [] && b[0] < 0x80
    ensures MpiValue(b) == Value(b, 256)
  {
    assert b[0] % 0x80 == b[0];
    assert b[0 := b[0] % 0x80] == b;
  }

  /** Otherwise that bit is the sign. */
  lemma MpiNegative(b: seq<nat>, p: nat)
    requires b != [] && Valid(b, 256) && b[0] >= 0x80 && p == Power(256, |b| - 1)
    ensures MpiValue(b) == 0x80 * p - Value(b, 256)
  {
    var u := Unsigned(b);
    LeadSplit(b, p);
    LeadSplit(u, p);
    assert u[1..] == b[1..];
    TopBit(b[0], u[0], p, Value(b[1..], 256));
  }

  lemma TopBit(x: nat, y: nat, p: nat, rest: nat)
    requires x == y + 0x80
    ensures x * p + rest == y * p + rest + 0x80 * p
  {
    MulDistributes(y, 0x80, p);
  }

  /** The four header bytes of a length. */
  function Header(size: nat): (h: seq<nat>)
    ensures |h| == 4 && Valid(h, 256)
  {
    [size / 0x100_0000 % 256, size / 0x1_0000 % 256, size / 0x100 % 256, size % 256]
  }

  function HeaderValue(h: seq<nat>): nat
    requires |h| >= 4
  {
    h[0] * 0x100_0000 + h[1] * 0x1_0000 + h[2] * 0x100 + h[3]
  }

  /** A length keeps its lowest 32 bits. */
  lemma HeaderRoundTrip(size: nat)
    ensures HeaderValue(Header(size)) == size % 0x1_0000_0000
  {
    var low := size % 0x1_0000_0000;
    HeaderLow(size, low);
    HeaderSmall(low);
  }

  lemma HeaderLow(size: nat, low: nat)
    requires low == size % 0x1_0000_0000
    ensures Header(size) == Header(low)
  {
    HighPart(size, low, 0x100_0000, 0x100);
    HighPart(size, low, 0x1_0000, 0x1_0000);
    HighPart(size, low, 0x100, 0x100_0000);
    Multiple(size / 0x1_0000_0000, 0x1_0000_0000, low);
  }

  lemma HighPart(size: nat, low: nat, unit: nat, rest: nat)
    requires low == size % 0x1_0000_0000 && unit > 0 && unit * rest == 0x1_0000_0000 && rest % 256 == 0
    ensures size / unit % 256 == low / unit % 256
  {
    var q, a := size / 0x1_0000_0000, low / unit;
    DivMod(low, unit);
    assert size == q * (unit * rest) + (a * unit + low % unit);
    assert q * (unit * rest) == q * rest * unit;
    MulDistributes(q * rest, a, unit);
    QuotientRemainder(q * rest + a, low % unit, unit);
    Multiple(q, rest, a);
  }

  lemma Multiple(q: nat, rest: nat, a: nat)
    requires rest % 256 == 0
    ensures (q * rest + a) % 256 == a % 256
  {
    var k := rest / 256;
    assert q * rest == q * k * 256;
  }

  lemma HeaderSmall(size: nat)
    requires size < 0x1_0000_0000
    ensures HeaderValue(Header(size)) == size
  {
    var a, b, c := size / 0x100, size / 0x1_0000, size / 0x100_0000;
    assert b == a / 0x100 && c == b / 0x100 && c < 0x100;
    assert size == a * 0x100 + size % 0x100;
    assert a == b * 0x100 + a % 0x100;
    assert b == c * 0x100 + b % 0x100;
  }

  /** A size as a 32-bit signed integer. */
  function Int32(n: nat): (r: int)
    ensures r <= n
  {
    var m := n % 0x1_0000_0000;
    if m < 0x8000_0000 then m else m - 0x1_0000_0000
  }

  /** Reading a number from a buffer with header. The reader takes the buffer's size as a 32-bit signed
      integer; false if that is less than four or the header does not match it. */
  function ReadMpi(buf: seq<nat>): (bool, int) {
    var n := Int32(|buf|);
    if n < 4 || HeaderValue(buf) != n - 4 then (false, 0) else (true, MpiValue(buf[4..n]))
  }

  /** How many of so many bytes are read back: all of them below 2 GiB. */
  function ReadBack(size: nat): (n: int)
    ensures -1 <= n <= size && (size + 4 < 0x8000_0000 ==> n == size)
  {
    var s := size % 0x1_0000_0000;
    if s + 4 < 0x8000_0000 then s else -1
  }

  function WriteMpi(n: int): seq<nat> { Header(|MpiBytes(n)|) + MpiBytes(n) }

  lemma MpiRoundTrip(n: int)
    ensures MpiValue(MpiBytes(n)) == n
  {
    var mag := Shortest(Abs(n), 256);
    ValueShortest(Abs(n), 256);
    if mag != [] {
      BodyValue(mag);
      SignedValue(Body(mag), n < 0);
    }
  }

  lemma SignedValue(body: seq<nat>, negative: bool)
    requires body != [] && Valid(body, 256) && body[0] < 0x80
    ensures var v: int := Value(body, 256);
      MpiValue(Signed(body, negative)) == if negative then -v else v
  {
    Unsign(body, negative);
  }

  lemma Unsign(body: seq<nat>, negative: bool)
    requires body != [] && Valid(body, 256) && body[0] < 0x80
    ensures var b := Signed(body, negative);
      Unsigned(b) == body && (b[0] >= 0x80 <==> negative)
  {
  }

  /** A magnitude with room for the sign bit. */
  function Body(mag: seq<nat>): (body: seq<nat>)
    requires mag != [] && Valid(mag, 256)
    ensures body != [] && Valid(body, 256) && body[0] < 0x80
  {
    if mag[0] >= 0x80 then [0] + mag else mag
  }

  lemma BodyValue(mag: seq<nat>)
    requires mag != [] && Valid(mag, 256)
    ensures Value(Body(mag), 256) == Value(mag, 256)
  {
    assert Zeros(1) == [0];
    ValueSkipsZeros(1, mag, 256);
  }

  /** The bytes of a non-negative number: top bit clear, and no zero byte in front that is not needed
      to keep it clear. */
  predicate Canonical(b: seq<nat>) {
    Valid(b, 256) && (b != [] ==> b[0] < 0x80 && (b[0] != 0 || (|b| >= 2 && b[1] >= 0x80)))
  }

  lemma MpiIsCanonical(n: nat)
    ensures Canonical(MpiBytes(n))
  {
    if n > 0 { ShortestLeads(n, 256); }
  }

  lemma MpiOfCanonical(b: seq<nat>)
    requires Canonical(b)
    ensures MpiValue(b) == Value(b, 256) && MpiBytes(Value(b, 256)) == b
  {
    if b != [] {
      assert b[0 := b[0] % 0x80] == b;
      if b[0] == 0 {
        assert b == Zeros(1) + b[1..];
        ValueSkipsZeros(1, b[1..], 256);
        ShortestValue(b[1..], 256);
      } else {
        ShortestValue(b, 256);
      }
    }
  }

  // ----- compact form -----

  /** A content byte, missing ones as zero. */
  function ByteAt(b: seq<nat>, i: nat): nat { if i < |b| then b[i] else 0 }

  /** The first three content bytes as a number. */
  function Mantissa(b: seq<nat>): nat { ByteAt(b, 0) * 0x1_0000 + ByteAt(b, 1) * 0x100 + ByteAt(b, 2) }

  /** Size in the top byte (in 32 bits), then the leading three content bytes. */
  function ToCompact(n: int): nat { |MpiBytes(n)| % 256 * 0x100_0000 + Mantissa(MpiBytes(n)) }

  /** The content a compact form stands for: three bytes of its own, the rest zero. */
  function CompactByte(c: nat, i: nat): nat {
    if i == 0 then c / 0x1_0000 % 256 else if i == 1 then c / 0x100 % 256 else if i == 2 then c % 256 else 0
  }

  function CompactBytes(c: nat): (b: seq<nat>)
    ensures |b| == c / 0x100_0000 && forall i :: 0 <= i < |b| ==> b[i] == CompactByte(c, i)
  {
    seq(c / 0x100_0000, i requires i >= 0 => CompactByte(c, i))
  }

  function FromCompact(c: nat): int { MpiValue(CompactBytes(c)) }

  lemma WrapSize(size: nat)
    ensures size * 0x100_0000 % 0x1_0000_0000 == size % 256 * 0x100_0000
  {
  }

  lemma ReadsBack(size: nat)
    ensures var n, s := Int32(size + 4), size % 0x1_0000_0000;
      if ReadBack(size) < 0 then n < 4 else n == s + 4 && ReadBack(size) == s
  {
    var s := size % 0x1_0000_0000;
    assert (size + 4) % 0x1_0000_0000 == if s + 4 < 0x1_0000_0000 then s + 4 else s + 4 - 0x1_0000_0000;
  }

  lemma ReadsSmall(buf: seq<nat>)
    requires 4 <= |buf| < 0x8000_0000 && HeaderValue(buf) == |buf| - 4
    ensures ReadMpi(buf) == (true, MpiValue(buf[4..]))
  {
    assert Int32(|buf|) == |buf|;
    assert buf[4..|buf|] == buf[4..];
  }

  /** The number after setting it from little-endian bytes with sign bit: it stays as it was if the
      reader refuses the bytes. */
  function SetTo(was: int, vch: seq<nat>): int {
    var n := ReadBack(|vch|);
    if n < 0 then was else MpiValue(Reverse(vch)[..n])
  }

  class Number {
    var value: int

    constructor ()
      ensures value == 0
    {
      value := 0;
    }

    /** Sets the number from little-endian bytes with sign bit. */
    method SetVch(vch: seq<nat>)
      requires Valid(vch, 256)
      modifies this
      ensures value == SetTo(old(value), vch)
      ensures |vch| + 4 < 0x8000_0000 ==> value == MpiValue(Reverse(vch))
    {
      HeaderRoundTrip(|vch|);
      var buf := Header(|vch|) + Reverse(vch);
      ReadsBack(|vch|);
      assert HeaderValue(buf) == HeaderValue(Header(|vch|));
      ghost var n := ReadBack(|vch|);
      assert n >= 0 ==> buf[4..4 + n] == Reverse(vch)[..n];
      assert Reverse(vch)[..|vch|] == Reverse(vch);
      var (ok, r) := ReadMpi(buf);
      if ok { value := r; }
    }

    method GetVch() returns (vch: seq<nat>)
      ensures vch == Reverse(MpiBytes(value)) && Valid(vch, 256)
    {
      var buf := WriteMpi(value);
      if |buf| <= 4 { return []; }
      assert buf[4..] == MpiBytes(value);
      vch := Reverse(buf[4..]);
    }

    method SetCompact(c: nat)
      requires c < 0x1_0000_0000
      modifies this
      ensures value == FromCompact(c)
    {
      var size := c / 0x100_0000;
      var vch := Zeros(4 + size);
      vch := vch[3 := size];
      if size >= 1 { vch := vch[4 := c / 0x1_0000 % 256]; }
      if size >= 2 { vch := vch[5 := c / 0x100 % 256]; }
      if size >= 3 { vch := vch[6 := c % 256]; }
      assert vch[4..] == CompactBytes(c);
      ReadsSmall(vch);
      var (ok, n) := ReadMpi(vch);
      if ok { value := n; }
    }

    method GetCompact() returns (c: nat)
      ensures c == ToCompact(value)
    {
      var vch := WriteMpi(value);
      var size := |vch| - 4;
      assert vch[4..] == MpiBytes(value);
      c := size * 0x100_0000 % 0x1_0000_0000;
      WrapSize(size);
      if size >= 1 { c := c + vch[4] * 0x1_0000; }
      if size >= 2 { c := c + vch[5] * 0x100; }
      if size >= 3 { c := c + vch[6]; }
    }
  }

  /** Setting another number to what was got gives the number exactly below 2 GiB. */
  lemma VchRoundTrip(n: int, was: int)
    requires was != n
    ensures SetTo(was, Reverse(MpiBytes(n))) == n <==> |MpiBytes(n)| + 4 < 0x8000_0000
  {
    var b := MpiBytes(n);
    var r := ReadBack(|b|);
    ReverseTwice(b);
    MpiRoundTrip(n);
    if |b| + 4 < 0x8000_0000 {
      assert b[..|b|] == b;
    } else if r >= 0 {
      PartDiffers(b, r, n);
    }
  }

  lemma PartDiffers(b: seq<nat>, r: nat, n: int)
    requires r < |b| && n != 0 && MpiValue(b) == n
    ensures MpiValue(b[..r]) != n
  {
    if r > 0 {
      var u := Unsigned(b);
      assert Unsigned(b[..r]) == u[..r];
      if Value(u[..r], 256) == Value(u, 256) { PartValue(u, u[..r], 256); }
    }
  }

  /** What is written of a number is read back as that number exactly below 2 GiB. */
  method WriteAndRead(a: Number) returns (b: Number)
    ensures b.value == a.value <==> |MpiBytes(a.value)| + 4 < 0x8000_0000
  {
    var vch := a.GetVch();
    b := new Number();
    if a.value != 0 { VchRoundTrip(a.value, 0); }
    b.SetVch(vch);
  }

  // ----- how much the compact form loses -----

  lemma CompactParts(size: nat, b0: nat, b1: nat, b2: nat)
    requires b0 < 256 && b1 < 256 && b2 < 256
    ensures var c := size * 0x100_0000 + (b0 * 0x1_0000 + b1 * 0x100 + b2);
      c / 0x100_0000 == size && c / 0x1_0000 % 256 == b0 && c / 0x100 % 256 == b1 && c % 256 == b2
  {
    var c := size * 0x100_0000 + (b0 * 0x1_0000 + b1 * 0x100 + b2);
    assert c / 0x1_0000 == size * 256 + b0;
    assert c / 0x100 == (size * 256 + b0) * 256 + b1;
  }

  /** The bytes that survive: the first three, the rest zero. */
  lemma CompactKeeps(b: seq<nat>, c: nat)
    requires Valid(b, 256) && c == |b| * 0x100_0000 + Mantissa(b)
    ensures CompactBytes(c) == Kept(b)
  {
    var b0, b1, b2 := ByteAt(b, 0), ByteAt(b, 1), ByteAt(b, 2);
    CompactParts(|b|, b0, b1, b2);
    assert CompactByte(c, 0) == b0 && CompactByte(c, 1) == b1 && CompactByte(c, 2) == b2;
    var d := CompactBytes(c);
    assert |d| == |b|;
    forall i | 0 <= i < |b| ensures d[i] == if i < 3 then b[i] else 0 {
      assert d[i] == CompactByte(c, i);
    }
  }

  /** The bytes of a non-negative number, and the number of those bytes. */
  lemma Known(n: nat)
    ensures Canonical(MpiBytes(n)) && Value(MpiBytes(n), 256) == n && Mantissa(MpiBytes(n)) < 0x80_0000
  {
    MpiIsCanonical(n);
    MpiRoundTrip(n);
    MpiOfCanonical(MpiBytes(n));
  }

  lemma ThreeBytes(b: seq<nat>)
    requires |b| == 3
    ensures Value(b, 256) == Mantissa(b)
  {
    assert b[..2][..1][..0] == [] && b[..2][..1] == b[..1] && b[..2][1] == b[1];
    assert Value(b[..1], 256) == b[0];
    assert Value(b[..2], 256) == b[0] * 256 + b[1];
  }

  /** A canonical number and the part of it that the compact form keeps. */
  lemma Truncated(b: seq<nat>)
    requires Canonical(b) && |b| > 3
    ensures var kept := b[..3] + Zeros(|b| - 3);
      && Canonical(kept)
      && Value(kept, 256) == Mantissa(b) * Power(256, |b| - 3)
      && Value(b, 256) == Mantissa(b) * Power(256, |b| - 3) + Value(b[3..], 256)
      && Value(b[3..], 256) < Power(256, |b| - 3)
      && Mantissa(b) >= 0x8000
  {
    assert b == b[..3] + b[3..];
    ValueAppend(b[..3], b[3..], 256);
    ValueAppend(b[..3], Zeros(|b| - 3), 256);
    ValueZeros(|b| - 3, 256);
    ThreeBytes(b[..3]);
    ValueBound(b[3..], 256);
  }

  /** The bytes of a number that the compact form keeps. */
  function Kept(b: seq<nat>): seq<nat> { if |b| <= 3 then b else b[..3] + Zeros(|b| - 3) }

  /** What is left of a canonical number: nearly all of it, with the same size and leading bytes. */
  lemma KeptPart(b: seq<nat>)
    requires Canonical(b)
    ensures MpiValue(Kept(b)) == Value(Kept(b), 256) <= Value(b, 256) && MpiBytes(Value(Kept(b), 256)) == Kept(b)
    ensures Value(b, 256) > 0 ==> (Value(b, 256) - Value(Kept(b), 256)) * 0x8000 < Value(b, 256)
    ensures |Kept(b)| == |b| && Mantissa(Kept(b)) == Mantissa(b)
  {
    if |b| > 3 {
      Truncated(b);
      MpiOfCanonical(Kept(b));
      LossBound(Mantissa(b), Power(256, |b| - 3), Value(b[3..], 256));
      SameMantissa(b, Kept(b));
    } else {
      MpiOfCanonical(b);
    }
  }

  lemma BackFromCompact(n: nat)
    requires |MpiBytes(n)| < 256
    ensures FromCompact(ToCompact(n)) == MpiValue(Kept(MpiBytes(n)))
  {
    MpiIsCanonical(n);
    CompactKeeps(MpiBytes(n), ToCompact(n));
  }

  /** The compact form of a non-negative number: size in the top byte, and below it the number cut down to,
      or filled up to, three bytes. */
  lemma ToCompactMeans(n: nat, c: nat, s: nat)
    requires c == ToCompact(n) && s == |MpiBytes(n)| < 256
    ensures c / 0x100_0000 == s
    ensures s >= 3 ==> var m, unit := c % 0x100_0000, Power(256, s - 3);
      m * unit <= n < m * unit + unit
    ensures s <= 3 ==> c % 0x100_0000 == n * Power(256, 3 - s)
    ensures n > 0 ==> n < 0x80 * Power(256, s - 1) && (s >= 2 ==> n >= 0x80 * Power(256, s - 2))
  {
    var b := MpiBytes(n);
    Known(n);
    SizeAndMantissa(s, Mantissa(b));
    if n > 0 { SizeBounds(b); }
    if s > 3 {
      Truncated(b);
    } else {
      SmallValue(b);
    }
  }

  lemma SizeAndMantissa(s: nat, m: nat)
    requires s < 256 && m < 0x100_0000
    ensures var c := s % 256 * 0x100_0000 + m;
      c / 0x100_0000 == s && c % 0x100_0000 == m
  {
    QuotientRemainder(s, m, 0x100_0000);
  }

  /** The number a compact form stands for: the lower three bytes, the top bit of which is the sign, moved to
      the size in the top byte. */
  lemma FromCompactMeans(c: nat)
    ensures var size, m, negative := c / 0x100_0000, c % 0x80_0000, c / 0x80_0000 % 2 == 1;
      var sign := if negative then -1 else 1;
      && (size >= 3 ==> FromCompact(c) == sign * (m * Power(256, size - 3)))
      && (size < 3 ==> Power(256, 3 - size) > 0 && FromCompact(c) == sign * (m / Power(256, 3 - size)))
  {
    var size, b := c / 0x100_0000, CompactBytes(c);
    CompactSplit(c);
    if size > 0 { CompactMagnitude(c, size, Unsigned(b)); } else { assert Power(256, 3) == 0x100_0000; }
  }

  lemma CompactMagnitude(c: nat, size: nat, u: seq<nat>)
    requires size == c / 0x100_0000 && size > 0 && u == Unsigned(CompactBytes(c))
    ensures size >= 3 ==> Value(u, 256) == c % 0x80_0000 * Power(256, size - 3)
    ensures size < 3 ==> Power(256, 3 - size) > 0 && Value(u, 256) == c % 0x80_0000 / Power(256, 3 - size)
  {
    CompactSplit(c);
    if size >= 3 {
      ThreeBytes(u[..3]);
      assert u == u[..3] + Zeros(size - 3);
      ValueAppend(u[..3], Zeros(size - 3), 256);
      ValueZeros(size - 3, 256);
    } else if size == 2 {
      TwoBytes(u);
      assert Power(256, 1) == 256;
    } else {
      assert u[..0] == [] && Value(u, 256) == u[0];
      assert Power(256, 2) == 65536;
    }
  }

  lemma CompactSplit(c: nat)
    ensures var b0, b1, b2 := c / 0x1_0000 % 256, c / 0x100 % 256, c % 256;
      && c % 0x80_0000 == b0 % 0x80 * 0x1_0000 + b1 * 0x100 + b2
      && (c / 0x80_0000 % 2 == 1 <==> b0 >= 0x80)
  {
    var q, r := c / 0x1_0000, c % 0x1_0000;
    var h, l := q / 0x80, q % 0x80;
    assert c == h * 0x80_0000 + (l * 0x1_0000 + r);
    QuotientRemainder(h, l * 0x1_0000 + r, 0x80_0000);
    assert q == h / 2 * 256 + (h % 2 * 0x80 + l);
    QuotientRemainder(h / 2, h % 2 * 0x80 + l, 256);
    LowTwo(c, q, r);
  }

  lemma LowTwo(c: nat, q: nat, r: nat)
    requires q == c / 0x1_0000 && r == c % 0x1_0000
    ensures r == c / 0x100 % 256 * 0x100 + c % 256
  {
    assert c == (q * 256 + r / 256) * 256 + r % 256;
    QuotientRemainder(q * 256 + r / 256, r % 256, 256);
    QuotientRemainder(q, r / 256, 256);
  }

  lemma TwoBytes(b: seq<nat>)
    requires |b| == 2
    ensures Value(b, 256) == b[0] * 256 + b[1]
  {
    assert b[..1][..0] == [] && b[..1][0] == b[0];
    assert Value(b[..1], 256) == b[0];
  }

  lemma SameCompact(n: nat, m: nat)
    requires |MpiBytes(n)| == |MpiBytes(m)| && Mantissa(MpiBytes(n)) == Mantissa(MpiBytes(m))
    ensures ToCompact(n) == ToCompact(m)
  {
  }

  /** Going to the compact form and back never gains, loses less than one part in 2^15, and does not
      change the compact form again. */
  lemma CompactLoss(n: nat, t: int)
    requires |MpiBytes(n)| < 256 && t == FromCompact(ToCompact(n))
    ensures 0 <= t <= n && (n > 0 ==> (n - t) * 0x8000 < n)
    ensures ToCompact(t) == ToCompact(n)
  {
    BackFromCompact(n);
    Known(n);
    KeptPart(MpiBytes(n));
    SameCompact(t, n);
  }

  /** From 256 bytes on the size wraps, and what comes back is a tiny part of the number. */
  lemma WrappedIsSmall(n: nat, t: int)
    requires |MpiBytes(n)| >= 256 && t == FromCompact(ToCompact(n))
    ensures 0 <= t && 0x80 * t <= n
  {
    var b := MpiBytes(n);
    var s, c := |b| % 256, ToCompact(n);
    Known(n);
    CompactParts(s, b[0], b[1], b[2]);
    var d := CompactBytes(c);
    assert |d| == s;
    if s > 0 {
      assert d[0] == b[0];
      assert d[0 := d[0] % 0x80] == d;
      ValueBound(d, 256);
    }
    SizeBounds(b);
    PowerMonotone(s, |b| - 2);
    PowerPositive(256, |b| - 2);
  }

  /** The loss bound holds exactly while the size fits its byte. */
  lemma CompactLossIff(n: nat, t: int)
    requires n > 0 && t == FromCompact(ToCompact(n))
    ensures 0 <= t <= n && (n - t) * 0x8000 < n <==> |MpiBytes(n)| < 256
  {
    if |MpiBytes(n)| < 256 { CompactLoss(n, t); } else { WrappedIsSmall(n, t); }
  }

  /** The bytes of a power of 256. */
  lemma PowerBytes(k: nat)
    ensures MpiBytes(Power(256, k)) == [1] + Zeros(k)
  {
    var b := [1] + Zeros(k);
    LeadSplit(b, Power(256, k));
    assert b[1..] == Zeros(k);
    ValueZeros(k, 256);
    MpiOfCanonical(b);
  }

  /** Of the first power of 256 with 256 bytes nothing comes back. */
  lemma WrappedIsLost(n: nat, k: nat)
    requires k == 255 && n == Power(256, k)
    ensures |MpiBytes(n)| == 256 && FromCompact(ToCompact(n)) == 0 && n > 0
  {
    PowerBytes(k);
    PowerPositive(256, k);
    assert ToCompact(n) == 0x1_0000;
  }

  lemma SameMantissa(b: seq<nat>, c: seq<nat>)
    requires |b| == |c| > 3 && c[..3] == b[..3]
    ensures Mantissa(c) == Mantissa(b)
  {
    assert b[..3][0] == c[..3][0] && b[..3][1] == c[..3][1] && b[..3][2] == c[..3][2];
  }

  lemma LossBound(m: nat, unit: nat, rest: nat)
    requires m >= 0x8000 && rest < unit
    ensures rest * 0x8000 < m * unit + rest
  {
    assert m * unit >= 0x8000 * unit by { MulDistributes(m - 0x8000, 0x8000, unit); }
  }

  // ----- order -----

  /** The first byte and the rest. */
  lemma LeadSplit(b: seq<nat>, p: nat)
    requires Valid(b, 256) && b != [] && p == Power(256, |b| - 1)
    ensures Value(b, 256) == b[0] * p + Value(b[1..], 256) && Value(b[1..], 256) < p
  {
    assert b == b[..1] + b[1..];
    ValueAppend(b[..1], b[1..], 256);
    assert b[..1][..0] == [];
    assert Value(b[..1], 256) == b[0];
    ValueBound(b[1..], 256);
  }

  /** The number of content bytes pins a number between two powers. */
  lemma SizeBounds(b: seq<nat>)
    requires Canonical(b) && b != []
    ensures Value(b, 256) < 0x80 * Power(256, |b| - 1)
    ensures |b| >= 2 ==> Value(b, 256) >= 0x80 * Power(256, |b| - 2)
    ensures Value(b, 256) > 0
  {
    var p := Power(256, |b| - 1);
    LeadSplit(b, p);
    MulGap(b[0], 0x80, p);
    PowerPositive(256, |b| - 1);
    if b[0] > 0 {
      if b[0] > 1 { MulGap(1, b[0], p); }
    } else {
      SecondByte(b[1..], Power(256, |b| - 2));
    }
  }

  lemma SecondByte(b: seq<nat>, q: nat)
    requires Valid(b, 256) && b != [] && b[0] >= 0x80 && q == Power(256, |b| - 1)
    ensures Value(b, 256) >= 0x80 * q > 0
  {
    LeadSplit(b, q);
    PowerPositive(256, |b| - 1);
    if b[0] > 0x80 { MulGap(0x80, b[0], q); }
  }

  lemma {:induction false} PowerMonotone(m: nat, n: nat)
    requires m <= n
    ensures Power(256, m) <= Power(256, n)
  {
    if m < n { PowerMonotone(m, n - 1); }
  }

  lemma SizeMonotone(n: nat, m: nat)
    requires n <= m
    ensures |MpiBytes(n)| <= |MpiBytes(m)|
  {
    var b, c := MpiBytes(n), MpiBytes(m);
    Known(n);
    Known(m);
    if |b| > |c| {
      SizeBounds(b);
      if c != [] {
        SizeBounds(c);
        PowerMonotone(|c| - 1, |b| - 2);
      }
    }
  }

  lemma MantissaMonotone(b: seq<nat>, c: seq<nat>)
    requires Canonical(b) && Canonical(c) && |b| == |c| && Value(b, 256) <= Value(c, 256)
    ensures Mantissa(b) <= Mantissa(c)
  {
    if |b| > 3 {
      Truncated(b);
      Truncated(c);
      if Mantissa(c) < Mantissa(b) { MulGap(Mantissa(c), Mantissa(b), Power(256, |b| - 3)); }
    } else {
      SmallValue(b);
      SmallValue(c);
      if Value(b, 256) < Value(c, 256) { MulGap(Value(b, 256), Value(c, 256), Power(256, 3 - |b|)); }
    }
  }

  lemma SmallValue(b: seq<nat>)
    requires |b| <= 3
    ensures Mantissa(b) == Value(b, 256) * Power(256, 3 - |b|)
  {
    var z := Zeros(3 - |b|);
    ValueAppend(b, z, 256);
    ValueZeros(3 - |b|, 256);
    ThreeBytes(b + z);
  }

  /** The compact form orders non-negative numbers as they are ordered. */
  lemma CompactMonotone(n: nat, m: nat)
    requires n <= m && |MpiBytes(m)| < 256
    ensures ToCompact(n) <= ToCompact(m)
  {
    var b, c := MpiBytes(n), MpiBytes(m);
    SizeMonotone(n, m);
    Known(n);
    Known(m);
    if |b| == |c| { MantissaMonotone(b, c); }
    CompactOrder(|b|, Mantissa(b), |c|, Mantissa(c));
  }

  lemma CompactOrder(s: nat, m: nat, s': nat, m': nat)
    requires s <= s' < 256 && m < 0x100_0000 && (s == s' ==> m <= m')
    ensures s % 256 * 0x100_0000 + m <= s' % 256 * 0x100_0000 + m'
  {
    assert s % 256 == s && s' % 256 == s';
  }

  /** The compact form keeps the order of the numbers of up to so many bytes. */
  ghost predicate KeepsOrder(size: nat) {
    forall n: nat, m: nat :: n <= m && |MpiBytes(m)| <= size ==> ToCompact(n) <= ToCompact(m)
  }

  /** It does exactly while the size fits its byte. */
  lemma CompactOrderIff(size: nat)
    ensures KeepsOrder(size) <==> size < 256
  {
    if size < 256 {
      forall n: nat, m: nat | n <= m && |MpiBytes(m)| <= size ensures ToCompact(n) <= ToCompact(m) {
        CompactMonotone(n, m);
      }
    } else {
      OrderBreaks(254, 255);
    }
  }

  /** The largest size and the first one that does not fit. */
  lemma OrderBreaks(j: nat, k: nat)
    requires j == 254 && k == 255
    ensures Power(256, j) < Power(256, k) && |MpiBytes(Power(256, k))| == 256
    ensures ToCompact(Power(256, j)) > ToCompact(Power(256, k))
  {
    PowerBytes(j);
    PowerBytes(k);
    PowerPositive(256, j);
    assert Power(256, k) == Power(256, j) * 256;
  }
}
