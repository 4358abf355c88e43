/** BLAKE-512 and BLAKE-384 over bits, as sections 2.2.3 and 2.2.4 of the BLAKE submission to the SHA-3
    competition describe them: padding, block counters, and the chain of compressions. */
module BlakeSpec {
  import opened Digits

  const WORD: nat := 0x1_0000_0000_0000_0000
  const DOUBLE: nat := 0x1_0000_0000_0000_0000_0000_0000_0000_0000

  /** The chain value: eight words. */
  datatype State = State(h0: nat, h1: nat, h2: nat, h3: nat, h4: nat, h5: nat, h6: nat, h7: nat) {
    function Word(k: nat): (w: nat)
      requires k < 8
      ensures w == [h0, h1, h2, h3, h4, h5, h6, h7][k]
    {
      if k == 0 then h0 else if k == 1 then h1 else if k == 2 then h2 else if k == 3 then h3
      else if k == 4 then h4 else if k == 5 then h5 else if k == 6 then h6 else h7
    }
  }

  /** The compression function: chain value, block of 128 bytes, 128-bit counter. */
  type Compression = (State, seq<nat>, nat) -> State

  // ----- bits -----

  /** The lowest n bits of a number, highest first. */
  function NumberBits(v: nat, n: nat): (b: seq<bool>)
    ensures |b| == n
    decreases n, v
  {
    if n == 0 then [] else NumberBits(v / 2, n - 1) + [v % 2 == 1]
  }

  /** The bits of a byte string. */
  function Bits(bytes: seq<nat>): (b: seq<bool>)
    ensures |b| == 8 * |bytes|
  {
    seq(8 * |bytes|, i requires 0 <= i < 8 * |bytes| => NumberBits(bytes[i / 8], 8)[i % 8])
  }

  function Falses(n: nat): (b: seq<bool>)
    ensures |b| == n && forall i :: 0 <= i < n ==> !b[i]
  {
    seq(n, _ => false)
  }

  // ----- the hash of a message -----

  /** A message of whole bytes and the first n bits of one more. */
  function MessageBits(m: seq<nat>, ub: nat, n: nat): (b: seq<bool>)
    requires n < 8
    ensures |b| == 8 * |m| + n
  {
    Bits(m) + NumberBits(ub, 8)[..n]
  }

  /** A one, zeros up to 895 modulo 1024, the marker bit and the length in 128 bits. */
  function Padded(message: seq<bool>, marker: bool): seq<bool> {
    Extended(message, (894 - |message|) % 1024, marker, NumberBits(|message| % DOUBLE, 128))
  }

  function Extended(message: seq<bool>, zeros: nat, marker: bool, length: seq<bool>): seq<bool> {
    message + [true] + Falses(zeros) + [marker] + length
  }

  /** The bytes are those of the padded message. */
  predicate Pads(p: seq<nat>, message: seq<bool>, marker: bool) { Bits(p) == Padded(message, marker) }

  /** The counter of block i: the message bits hashed so far, this block included; 0 for a block that
      holds no message bit. */
  function Counter(i: nat, total: nat): nat {
    (if 1024 * i >= total then 0 else if 1024 * (i + 1) <= total then 1024 * (i + 1) else total) % DOUBLE
  }

  function Block(p: seq<nat>, i: nat): (b: seq<nat>)
    requires 128 * (i + 1) <= |p|
    ensures |b| == 128
  {
    p[128 * i..128 * (i + 1)]
  }

  /** The chain value after k blocks of the byte string p, for a message of so many bits. */
  function Chain(f: Compression, iv: State, p: seq<nat>, total: nat, k: nat): State
    requires 128 * k <= |p|
    decreases k
  {
    if k == 0 then iv else f(Chain(f, iv, p, total, k - 1), Block(p, k - 1), Counter(k - 1, total))
  }

  // ----- facts about bits -----

  lemma BitsAppend(a: seq<nat>, b: seq<nat>)
    ensures Bits(a + b) == Bits(a) + Bits(b)
  {
    var n := 8 * |a|;
    forall i | 0 <= i < n + 8 * |b| ensures Bits(a + b)[i] == (Bits(a) + Bits(b))[i] {
      if i < n {
        assert (a + b)[i / 8] == a[i / 8];
      } else {
        assert (i - n) / 8 == i / 8 - |a| && (i - n) % 8 == i % 8;
        assert (a + b)[i / 8] == b[(i - n) / 8];
      }
    }
  }

  lemma BitsOne(x: nat)
    ensures Bits([x]) == NumberBits(x, 8)
  {
  }

  lemma BitsLast(s: seq<nat>, x: nat)
    ensures Bits(s + [x]) == Bits(s) + NumberBits(x, 8)
  {
    BitsAppend(s, [x]);
    BitsOne(x);
  }

  lemma {:induction false} FalsesAppend(a: nat, b: nat)
    ensures Falses(a + b) == Falses(a) + Falses(b)
  {
  }

  /** Eight bits off the low end of a number. */
  lemma LowByte(v: nat, n: nat)
    ensures NumberBits(v, n + 8) == NumberBits(v / 256, n) + NumberBits(v % 256, 8)
  {
    LowBits(v, n, 8);
    ByteBits(v);
    PowerEight();
  }

  lemma ByteBits(v: nat)
    ensures NumberBits(v, 8) == NumberBits(v % 256, 8)
  {
    PowerEight();
    BitsOfRest(v, 8);
  }

  lemma PowerEight()
    ensures Power(2, 8) == 256
  {
    assert Power(2, 4) == 16;
  }

  lemma HalfPower(v: nat, k: nat)
    ensures Power(2, k) > 0 && v / Power(2, k + 1) == v / 2 / Power(2, k)
    ensures v % Power(2, k + 1) == v / 2 % Power(2, k) * 2 + v % 2
  {
    PowerPositive(2, k);
    var p, h := Power(2, k), v / 2;
    var q, r := h / p, h % p;
    DivMod(h, p);
    MulAssociative(q, p, 2);
    assert v == q * (p * 2) + (r * 2 + v % 2);
    QuotientRemainder(q, r * 2 + v % 2, p * 2);
  }

  lemma {:induction false} LowBits(v: nat, n: nat, k: nat)
    ensures Power(2, k) > 0 && NumberBits(v, n + k) == NumberBits(v / Power(2, k), n) + NumberBits(v, k)
    decreases k
  {
    PowerPositive(2, k);
    if k > 0 {
      LowBits(v / 2, n, k - 1);
      HalfPower(v, k - 1);
    } else {
      assert v / 1 == v;
    }
  }

  lemma {:induction false} BitsOfRest(v: nat, k: nat)
    ensures Power(2, k) > 0 && NumberBits(v, k) == NumberBits(v % Power(2, k), k)
    decreases k
  {
    PowerPositive(2, k);
    if k > 0 {
      HalfPower(v, k - 1);
      BitsOfRest(v / 2, k - 1);
    }
  }

  lemma {:induction false} ZeroBits(k: nat)
    ensures NumberBits(0, k) == Falses(k)
  {
    if k > 0 { ZeroBits(k - 1); }
  }

  lemma {:induction false} BitsOfZeros(k: nat)
    ensures Bits(Zeros(k)) == Falses(8 * k)
  {
    if k > 0 {
      assert Zeros(k) == Zeros(k - 1) + [0];
      BitsLast(Zeros(k - 1), 0);
      BitsOfZeros(k - 1);
      ZeroBits(8);
      FalsesAppend(8 * (k - 1), 8);
    }
  }

  lemma {:induction false} NumberOfBits(x: nat, y: nat, n: nat)
    requires x < Power(2, n) && y < Power(2, n) && NumberBits(x, n) == NumberBits(y, n)
    ensures x == y
    decreases n
  {
    if n > 0 {
      var a, b := NumberBits(x / 2, n - 1), NumberBits(y / 2, n - 1);
      assert NumberBits(x, n)[..n - 1] == a && NumberBits(y, n)[..n - 1] == b;
      assert NumberBits(x, n)[n - 1] == (x % 2 == 1) && NumberBits(y, n)[n - 1] == (y % 2 == 1);
      NumberOfBits(x / 2, y / 2, n - 1);
    }
  }

  /** Different byte strings have different bits. */
  lemma BytesOfBits(p: seq<nat>, q: seq<nat>)
    requires Valid(p, 256) && Valid(q, 256) && Bits(p) == Bits(q)
    ensures p == q
  {
    assert |p| == |q|;
    PowerEight();
    forall i | 0 <= i < |p| ensures p[i] == q[i] {
      ByteAt(p, i);
      ByteAt(q, i);
      NumberOfBits(p[i], q[i], 8);
    }
  }

  lemma ByteAt(p: seq<nat>, i: nat)
    requires i < |p|
    ensures Bits(p)[8 * i..8 * i + 8] == NumberBits(p[i], 8)
  {
    forall j | 0 <= j < 8 ensures Bits(p)[8 * i..8 * i + 8][j] == NumberBits(p[i], 8)[j] {
      assert (8 * i + j) / 8 == i && (8 * i + j) % 8 == j;
    }
  }
}
