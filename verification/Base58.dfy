/** Base58 text: bytes as digits of base 58, then with a checksum, then with a version byte. */
module Base58 {
  import opened Digits
  import opened Seqs
  import BigNum

  // ----- the alphabet -----

  /** Digits and letters in character order, without 0, I, O and l. */
  function Alphabet(): (a: string)
    ensures |a| == 58
  {
    "123456789" + "ABCDEFGH" + "JKLMN" + "PQRSTUVWXYZ" + "abcdefghijk" + "mnopqrstuvwxyz"
  }

  function Letters(first: char, n: nat): (r: string)
    requires first as int + n <= 128
    ensures |r| == n && forall i :: 0 <= i < n ==> r[i] as int == first as int + i
  {
    seq(n, i requires 0 <= i < n => (first as int + i) as char)
  }

  /** The character codes of the alphabet. */
  function Code(d: nat): nat
    requires d < 58
  {
    if d < 9 then '1' as int + d
    else if d < 17 then 'A' as int + (d - 9)
    else if d < 22 then 'J' as int + (d - 17)
    else if d < 33 then 'P' as int + (d - 22)
    else if d < 44 then 'a' as int + (d - 33)
    else 'm' as int + (d - 44)
  }

  lemma AlphabetCode(d: nat)
    requires d < 58
    ensures Alphabet()[d] as int == Code(d)
  {
    assert "123456789" == Letters('1', 9);
    assert "ABCDEFGH" == Letters('A', 8);
    assert "JKLMN" == Letters('J', 5);
    assert "PQRSTUVWXYZ" == Letters('P', 11);
    assert "abcdefghijk" == Letters('a', 11);
    assert "mnopqrstuvwxyz" == Letters('m', 14);
  }

  lemma AlphabetOrdered(i: nat, j: nat)
    requires i < j < 58
    ensures '0' < Alphabet()[i] < Alphabet()[j]
  {
    AlphabetCode(i);
    AlphabetCode(j);
  }

  predicate Space(c: char) { c == ' ' || '\t' <= c <= '\r' }

  /** Blank, tab, line feed, vertical tab, form feed and carriage return. */
  lemma SpaceIs(c: char)
    ensures Space(c) <==> c as int in {32, 9, 10, 11, 12, 13}
  {
  }

  predicate Letter(c: char) {
    '1' <= c <= '9' || ('A' <= c <= 'Z' && c != 'I' && c != 'O') || ('a' <= c <= 'z' && c != 'l')
  }

  lemma LetterIff(c: char)
    ensures Letter(c) <==> c in Alphabet()
  {
    LetterIn(c, '1', "123456789");
    LetterIn(c, 'A', "ABCDEFGH");
    LetterIn(c, 'J', "JKLMN");
    LetterIn(c, 'P', "PQRSTUVWXYZ");
    LetterIn(c, 'a', "abcdefghijk");
    LetterIn(c, 'm', "mnopqrstuvwxyz");
  }

  lemma LetterIn(c: char, first: char, run: string)
    requires first as int + |run| <= 128 && run == Letters(first, |run|)
    ensures c in run <==> first as int <= c as int < first as int + |run|
  {
    if first as int <= c as int < first as int + |run| { assert run[c as int - first as int] == c; }
  }

  function Symbol(d: nat): (c: char)
    requires d < 58
    ensures Letter(c)
  {
    LetterIff(Alphabet()[d]);
    Alphabet()[d]
  }

  function IndexOf(c: char, s: string): (d: nat)
    requires c in s
    ensures d < |s| && s[d] == c
  {
    if s[0] == c then 0 else 1 + IndexOf(c, s[1..])
  }

  /** The position of a letter in the alphabet. */
  function Digit(c: char): (d: nat)
    requires Letter(c)
    ensures d < 58 && Symbol(d) == c
  {
    LetterIff(c);
    IndexOf(c, Alphabet())
  }

  lemma DigitOfSymbol(d: nat)
    requires d < 58
    ensures Digit(Symbol(d)) == d
  {
    var e := Digit(Symbol(d));
    if e < d { AlphabetOrdered(e, d); }
    if d < e { AlphabetOrdered(d, e); }
  }

  lemma LetterIsNoSpace(c: char)
    requires Letter(c)
    ensures !Space(c) && c != '\0'
  {
  }

  // ----- digits and text -----

  predicate Spaces(s: string) { forall i :: 0 <= i < |s| ==> Space(s[i]) }
  predicate Word(s: string) { forall i :: 0 <= i < |s| ==> Letter(s[i]) }

  function Symbols(ds: seq<nat>): (s: string)
    requires Valid(ds, 58)
    ensures |s| == |ds| && (forall i :: 0 <= i < |ds| ==> s[i] == Symbol(ds[i])) && Word(s)
  {
    seq(|ds|, i requires 0 <= i < |ds| => Symbol(ds[i]))
  }

  function DigitsOf(s: string): (ds: seq<nat>)
    requires Word(s)
    ensures |ds| == |s| && (forall i :: 0 <= i < |s| ==> ds[i] == Digit(s[i])) && Valid(ds, 58)
  {
    seq(|s|, i requires 0 <= i < |s| => Digit(s[i]))
  }

  lemma DigitsOfSymbols(ds: seq<nat>)
    requires Valid(ds, 58)
    ensures DigitsOf(Symbols(ds)) == ds
  {
    forall i | 0 <= i < |ds| ensures DigitsOf(Symbols(ds))[i] == ds[i] { DigitOfSymbol(ds[i]); }
  }

  lemma SymbolsOfDigits(s: string)
    requires Word(s)
    ensures Symbols(DigitsOf(s)) == s
  {
  }

  lemma ConvertValid(ds: seq<nat>, from: nat, to: nat)
    requires to >= 2
    ensures Valid(Convert(ds, from, to), to)
  {
  }

  /** The text of a byte string: the same number in base 58, as many leading ones as it has leading zeros. */
  function Text(b: seq<nat>): (s: string)
    ensures Word(s)
  {
    ConvertValid(b, 256, 58);
    Symbols(Convert(b, 256, 58))
  }

  /** The bytes a word stands for. */
  function Bytes(s: string): (b: seq<nat>)
    requires Word(s)
    ensures Valid(b, 256)
  {
    ConvertValid(DigitsOf(s), 58, 256);
    Convert(DigitsOf(s), 58, 256)
  }

  /** Bytes and words are in one-to-one correspondence. */
  lemma TextOfBytes(s: string, b: seq<nat>)
    requires Word(s) && Valid(b, 256)
    ensures Bytes(s) == b <==> Text(b) == s
  {
    if Bytes(s) == b {
      ConvertBack(DigitsOf(s), 58, 256);
      SymbolsOfDigits(s);
    }
    if Text(b) == s {
      ConvertValid(b, 256, 58);
      DigitsOfSymbols(Convert(b, 256, 58));
      ConvertBack(b, 256, 58);
    }
  }

  // ----- encoding -----

  function Number(n: nat): (s: string)
    ensures Word(s) && (n == 0 ==> s == "")
  {
    Symbols(Shortest(n, 58))
  }

  function Ones(n: nat): (s: string)
    ensures Word(s)
  {
    Symbols(Zeros(n))
  }

  lemma LowestDigit(n: nat)
    requires n > 0
    ensures Number(n) == Number(n / 58) + [Symbol(n % 58)]
  {
  }

  /** Read backwards: so many ones, then a number. */
  predicate Written(s: string, p: nat, number: string) { Reverse(s) == Ones(p) + number }

  lemma OneMore(s: string, p: nat, number: string)
    requires Written(s, p, number)
    ensures Written(s + [Symbol(0)], p + 1, number)
  {
    assert Ones(p + 1) == [Symbol(0)] + Ones(p);
    var empty: string := [];
    ReverseGrows(empty, Symbol(0), s);
    Associates([Symbol(0)], Ones(p), number);
  }

  lemma NextZero(b: seq<nat>, p: nat)
    requires p <= LeadingZeros(b) && p < |b|
    ensures b[p] == 0 <==> p < LeadingZeros(b)
  {
  }

  lemma TextParts(b: seq<nat>)
    ensures Text(b) == Ones(LeadingZeros(b)) + Number(Value(b, 256))
  {
  }

  /** Bytes with a zero above them are read as a non-negative number. */
  lemma PositiveBytes(b: seq<nat>)
    requires Valid(b, 256)
    ensures BigNum.MpiValue([0] + b) == Value(b, 256)
  {
    var z := [0] + b;
    assert z[0 := z[0] % 0x80] == z;
    assert Zeros(1) == [0];
    ValueSkipsZeros(1, b, 256);
  }

  /** The bytes that reach the number: all of them below 2 GiB. */
  function Received(b: seq<nat>): (r: seq<nat>)
    ensures r <= b && (r == b <==> |b| + 5 < 0x8000_0000)
  {
    var n := BigNum.ReadBack(|b| + 1);
    if n <= 0 then [] else b[..n - 1]
  }

  /** The text that encoding gives. */
  function Encoded(b: seq<nat>): (s: string)
    ensures Word(s)
  {
    Ones(LeadingZeros(b)) + Number(Value(Received(b), 256))
  }

  lemma NumberInjective(n: nat, m: nat)
    requires Number(n) == Number(m)
    ensures n == m
  {
    DigitsOfSymbols(Shortest(n, 58));
    DigitsOfSymbols(Shortest(m, 58));
    ValueShortest(n, 58);
    ValueShortest(m, 58);
  }

  /** Encoding gives the text of the bytes exactly below 2 GiB, or if they are all zero. */
  lemma EncodedIff(b: seq<nat>)
    ensures Encoded(b) == Text(b) <==> |b| + 5 < 0x8000_0000 || Value(b, 256) == 0
  {
    TextParts(b);
    var r, ones := Received(b), Ones(LeadingZeros(b));
    if Encoded(b) == Text(b) {
      assert Encoded(b)[|ones|..] == Number(Value(r, 256)) && Text(b)[|ones|..] == Number(Value(b, 256));
      NumberInjective(Value(r, 256), Value(b, 256));
      if r != b { PartValue(b, r, 256); }
    }
    if Value(b, 256) == 0 { PartZero(b, r); }
  }

  lemma PartZero(b: seq<nat>, r: seq<nat>)
    requires r <= b && Value(b, 256) == 0
    ensures Value(r, 256) == 0
  {
    var rest := b[|r|..];
    assert b == r + rest;
    ValueAppend(r, rest, 256);
    PowerPositive(256, |rest|);
    if Value(r, 256) > 0 { MulGap(0, Value(r, 256), Power(256, |rest|)); }
  }

  /** At 2 GiB less five nothing of the number is left, only the ones for leading zeros. */
  lemma LongIsLost(b: seq<nat>)
    requires |b| + 5 == 0x8000_0000 && b[0] != 0
    ensures Encoded(b) == "" && Text(b) != ""
  {
    assert BigNum.ReadBack(|b| + 1) == -1;
    assert LeadingZeros(b) == 0 && Value([], 256) == 0;
    ValuePositive(b, 256);
    EncodedIff(b);
  }

  /** Divides a number down to zero, writing the remainders as letters, lowest first. */
  method DivideOut(bn: BigNum.Number) returns (s: string)
    requires bn.value >= 0
    modifies bn
    ensures Reverse(s) == Number(old(bn.value))
  {
    s := [];
    ghost var n: nat := bn.value;
    while bn.value > 0
      invariant bn.value >= 0
      invariant Number(n) == Number(bn.value) + Reverse(s)
      decreases bn.value
    {
      LowestDigit(bn.value);
      var c := Symbol(bn.value % 58);
      ReverseGrows(Number(bn.value / 58), c, s);
      bn.value := bn.value / 58;
      s := s + [c];
    }
  }

  /** Leading zero bytes become ones. */
  method AppendOnes(b: seq<nat>, s: string, ghost number: string) returns (r: string)
    requires Written(s, 0, number)
    ensures Written(r, LeadingZeros(b), number)
  {
    var p := 0;
    ghost var zeros := LeadingZeros(b);
    r := s;
    while p < |b| && b[p] == 0
      invariant p <= zeros && Written(r, p, number)
    {
      NextZero(b, p);
      OneMore(r, p, number);
      r := r + [Symbol(0)];
      p := p + 1;
    }
    if p < |b| { NextZero(b, p); }
  }

  method Encode(b: seq<nat>) returns (s: string)
    requires Valid(b, 256)
    ensures s == Encoded(b) && (s == Text(b) <==> |b| + 5 < 0x8000_0000 || Value(b, 256) == 0)
  {
    var bn := new BigNum.Number();
    ReceivedIs(b);
    bn.SetVch(Reverse(b) + [0]);
    ghost var n := Value(Received(b), 256);
    s := DivideOut(bn);
    NoOnes(s, n);
    s := AppendOnes(b, s, Number(n));
    s := Reverse(s);
    EncodedIff(b);
  }

  lemma ReceivedIs(b: seq<nat>)
    requires Valid(b, 256)
    ensures var vch := Reverse(b) + [0];
      var n := BigNum.ReadBack(|vch|);
      Valid(vch, 256) && Value(Received(b), 256) == if n < 0 then 0 else BigNum.MpiValue(Reverse(vch)[..n])
  {
    var vch := Reverse(b) + [0];
    var n, r := BigNum.ReadBack(|vch|), Received(b);
    assert Reverse(vch) == [0] + b;
    if n > 0 {
      assert ([0] + b)[..n] == [0] + r;
      PositiveBytes(r);
    }
  }

  lemma NoOnes(s: string, n: nat)
    requires Reverse(s) == Number(n)
    ensures Written(s, 0, Number(n))
  {
  }

  // ----- decoding: which texts are read, and as what -----

  /** What a C string function sees of a string: the part before the first null character. */
  function CString(s: string): (r: string)
    ensures |r| <= |s| && r == s[..|r|] && (|r| < |s| ==> s[|r|] == '\0')
    ensures forall i :: 0 <= i < |r| ==> r[i] != '\0'
  {
    if s == [] || s[0] == '\0' then [] else [s[0]] + CString(s[1..])
  }

  /** Where the white space starting at i ends. */
  function SpacesEnd(c: string, i: nat): (j: nat)
    requires i <= |c|
    ensures i <= j <= |c| && (forall k :: i <= k < j ==> Space(c[k])) && (j < |c| ==> !Space(c[j]))
    decreases |c| - i
  {
    if i < |c| && Space(c[i]) then SpacesEnd(c, i + 1) else i
  }

  /** Where the letters starting at i end. */
  function WordEnd(c: string, i: nat): (j: nat)
    requires i <= |c|
    ensures i <= j <= |c| && (forall k :: i <= k < j ==> Letter(c[k])) && (j < |c| ==> !Letter(c[j]))
    decreases |c| - i
  {
    if i < |c| && Letter(c[i]) then WordEnd(c, i + 1) else i
  }

  /** The word of a text, and whether only white space follows it. */
  function WordOf(text: string): (w: string)
    ensures Word(w)
  {
    var c := CString(text);
    var start := SpacesEnd(c, 0);
    c[start..WordEnd(c, start)]
  }

  predicate Clean(text: string) {
    var c := CString(text);
    SpacesEnd(c, WordEnd(c, SpacesEnd(c, 0))) == |c|
  }

  /** The text is a word with nothing but white space around it. */
  predicate Holds(text: string, lead: string, word: string, trail: string) {
    CString(text) == lead + word + trail && Spaces(lead) && Word(word) && Spaces(trail)
  }

  ghost predicate Readable(text: string, word: string) {
    exists lead, trail :: Holds(text, lead, word, trail)
  }

  lemma HoldsOnly(text: string, lead: string, word: string, trail: string)
    requires Holds(text, lead, word, trail)
    ensures Clean(text) && WordOf(text) == word
  {
    Parts(CString(text), lead, word, trail);
  }

  lemma Parts(c: string, lead: string, word: string, trail: string)
    requires c == lead + word + trail && Spaces(lead) && Word(word) && Spaces(trail)
    ensures var start := SpacesEnd(c, 0);
      && c[start..WordEnd(c, start)] == word
      && SpacesEnd(c, WordEnd(c, start)) == |c|
  {
    var n, m := |lead|, |lead| + |word|;
    LeadPart(c, lead, word, trail);
    WordPart(c, lead, word, trail);
    TrailPart(c, lead, word, trail);
    if n < m {
      SpacesEndIs(c, 0, n);
      WordEndIs(c, n, m);
      SpacesEndIs(c, m, |c|);
    } else {
      SpacesEndIs(c, 0, |c|);
    }
  }

  predicate SpacesFrom(c: string, i: nat, j: nat) { j <= |c| && forall k :: i <= k < j ==> Space(c[k]) }
  predicate LettersFrom(c: string, i: nat, j: nat) { j <= |c| && forall k :: i <= k < j ==> Letter(c[k]) }

  lemma LeadPart(c: string, lead: string, word: string, trail: string)
    requires c == lead + word + trail && Spaces(lead)
    ensures SpacesFrom(c, 0, |lead|)
  {
    forall k | 0 <= k < |lead| ensures Space(c[k]) { assert c[k] == lead[k]; }
  }

  lemma WordPart(c: string, lead: string, word: string, trail: string)
    requires c == lead + word + trail && Word(word)
    ensures LettersFrom(c, |lead|, |lead| + |word|) && c[|lead|..|lead| + |word|] == word
  {
    forall k | |lead| <= k < |lead| + |word| ensures Letter(c[k]) { assert c[k] == word[k - |lead|]; }
  }

  lemma TrailPart(c: string, lead: string, word: string, trail: string)
    requires c == lead + word + trail && Spaces(trail)
    ensures SpacesFrom(c, |lead| + |word|, |c|)
  {
    var m := |lead| + |word|;
    forall k | m <= k < |c| ensures Space(c[k]) { assert c[k] == trail[k - m]; }
  }

  lemma SpacesEndIs(c: string, i: nat, j: nat)
    requires i <= j && SpacesFrom(c, i, j) && (j < |c| ==> !Space(c[j]))
    ensures SpacesEnd(c, i) == j
  {
    var e := SpacesEnd(c, i);
    assert !(e < j) && !(j < e);
  }

  lemma WordEndIs(c: string, i: nat, j: nat)
    requires i <= j && LettersFrom(c, i, j) && (j < |c| ==> !Letter(c[j]))
    ensures WordEnd(c, i) == j
  {
    var e := WordEnd(c, i);
    assert !(e < j) && !(j < e);
  }

  /** There is exactly one way to read a text, if any. */
  lemma ReadableIff(text: string, word: string)
    ensures Readable(text, word) <==> Clean(text) && word == WordOf(text)
  {
    if Readable(text, word) {
      var lead, trail :| Holds(text, lead, word, trail);
      HoldsOnly(text, lead, word, trail);
    }
    if Clean(text) && word == WordOf(text) { CleanHolds(text); }
  }

  lemma CleanHolds(text: string)
    requires Clean(text)
    ensures Readable(text, WordOf(text))
  {
    var c := CString(text);
    var start := SpacesEnd(c, 0);
    var end := WordEnd(c, start);
    ThreeParts(c, start, end);
    assert SpacesEnd(c, end) == |c|;
    assert Holds(text, c[..start], c[start..end], c[end..]);
  }

  lemma ThreeParts<T>(c: seq<T>, i: nat, j: nat)
    requires i <= j <= |c|
    ensures c == c[..i] + c[i..j] + c[j..]
  {
  }

  /** A word is read as itself. */
  lemma WordReadable(s: string)
    requires Word(s)
    ensures Clean(s) && WordOf(s) == s
  {
    forall i | 0 <= i < |s| ensures s[i] != '\0' { LetterIsNoSpace(s[i]); }
    assert CString(s) == s;
    assert s == "" + s + "";
    assert Holds(s, "", s, "");
    HoldsOnly(s, "", s, "");
  }

  // ----- decoding: the loops -----

  /** The character a pointer into the text shows. */
  function At(text: string, i: nat): char { if i < |text| then text[i] else '\0' }

  /** Reading the text character by character shows c, then a null character. */
  ghost predicate Shows(text: string, c: string) {
    && (forall i {:trigger At(text, i)} :: 0 <= i <= |c| ==> At(text, i) == if i < |c| then c[i] else '\0')
    && (forall i :: 0 <= i < |c| ==> c[i] != '\0')
  }

  lemma CStringShows(text: string)
    ensures Shows(text, CString(text))
  {
    var c := CString(text);
    forall i {:trigger At(text, i)} | 0 <= i <= |c| ensures At(text, i) == if i < |c| then c[i] else '\0' {
      if i < |c| { assert c[i] == text[..|c|][i]; }
    }
  }

  method SkipSpaces(text: string, i: nat, ghost c: string) returns (j: nat)
    requires Shows(text, c) && i <= |c|
    ensures j == SpacesEnd(c, i)
  {
    j := i;
    while Space(At(text, j))
      invariant j <= |c| && SpacesEnd(c, j) == SpacesEnd(c, i)
      decreases |c| - j
    {
      j := j + 1;
    }
  }

  /** Reads letters from i on into a number. */
  method ReadLetters(text: string, i: nat, ghost c: string) returns (j: nat, bn: nat)
    requires Shows(text, c) && i <= |c|
    ensures j == WordEnd(c, i) && Read(c, i, j, bn)
  {
    j, bn := i, 0;
    NothingRead(c, i);
    while At(text, j) != '\0' && Letter(At(text, j))
      invariant i <= j <= |c| && WordEnd(c, j) == WordEnd(c, i)
      invariant Read(c, i, j, bn)
      decreases |c| - j
    {
      NextLetter(c, i, j, bn, At(text, j));
      WordGoesOn(c, j);
      bn := bn * 58 + Digit(At(text, j));
      j := j + 1;
    }
    WordStops(c, j);
  }

  /** The number read from the letters between i and j. */
  predicate Read(c: string, i: nat, j: nat, bn: nat) {
    i <= j <= |c| && Word(c[i..j]) && bn == Value(DigitsOf(c[i..j]), 58)
  }

  lemma NothingRead(c: string, i: nat)
    requires i <= |c|
    ensures Read(c, i, i, 0)
  {
    assert c[i..i] == [];
  }

  lemma NextLetter(c: string, i: nat, j: nat, bn: nat, letter: char)
    requires i <= j < |c| && Read(c, i, j, bn) && letter == c[j] && Letter(letter)
    ensures Read(c, i, j + 1, bn * 58 + Digit(letter))
  {
    assert c[i..j + 1] == c[i..j] + [letter];
    MoreLetters(c[i..j], letter);
  }

  lemma MoreLetters(s: string, letter: char)
    requires Word(s) && Letter(letter)
    ensures Word(s + [letter]) && Value(DigitsOf(s + [letter]), 58) == Value(DigitsOf(s), 58) * 58 + Digit(letter)
  {
    assert DigitsOf(s + [letter]) == DigitsOf(s) + [Digit(letter)];
    ValuePush(DigitsOf(s), Digit(letter), 58);
  }

  lemma WordGoesOn(c: string, j: nat)
    requires j < |c| && Letter(c[j])
    ensures WordEnd(c, j + 1) == WordEnd(c, j)
  {
  }

  lemma WordStops(c: string, j: nat)
    requires j <= |c| && (j < |c| ==> !Letter(c[j]))
    ensures WordEnd(c, j) == j
  {
  }

  /** Counts the ones from i on. */
  method CountOnes(text: string, i: nat, ghost c: string) returns (n: nat)
    requires Shows(text, c) && i <= |c|
    ensures n == LeadingZeros(DigitsOf(c[i..WordEnd(c, i)]))
  {
    ghost var ones := LeadingZeros(DigitsOf(c[i..WordEnd(c, i)]));
    n := 0;
    NextOne(text, c, i, n, ones);
    while At(text, i + n) == Symbol(0)
      invariant n <= ones && i + ones <= |c|
      invariant At(text, i + n) == Symbol(0) <==> n < ones
      decreases ones - n
    {
      n := n + 1;
      NextOne(text, c, i, n, ones);
    }
  }

  lemma NextOne(text: string, c: string, i: nat, n: nat, ones: nat)
    requires Shows(text, c) && i <= |c| && n <= ones == LeadingZeros(DigitsOf(c[i..WordEnd(c, i)]))
    ensures i + ones <= |c| && (At(text, i + n) == Symbol(0) <==> n < ones)
  {
    var end := WordEnd(c, i);
    OneAt(c[i..end], n);
    LetterIsNoSpace(Symbol(0));
    if i + n < end { assert c[i..end][n] == c[i + n]; }
  }

  lemma OneAt(word: string, n: nat)
    requires Word(word) && n <= LeadingZeros(DigitsOf(word))
    ensures n < |word| ==> (word[n] == Symbol(0) <==> n < LeadingZeros(DigitsOf(word)))
  {
    if n < |word| {
      NextZero(DigitsOf(word), n);
      DigitOfSymbol(0);
      assert DigitsOf(word)[n] == Digit(word[n]);
    }
  }

  /** Dropping the byte that only held the sign leaves the shortest bytes. */
  lemma SignByte(n: nat)
    ensures var b, mag := BigNum.MpiBytes(n), Shortest(n, 256);
      if |b| >= 2 && b[0] == 0 && b[1] >= 0x80 then b == [0] + mag else b == mag
  {
    if n > 0 { ShortestLeads(n, 256); }
  }

  /** The big-endian bytes of a number, without sign byte. */
  method Magnitude(bn: BigNum.Number) returns (b: seq<nat>)
    requires bn.value >= 0
    ensures b == Shortest(bn.value, 256)
  {
    var tmp := bn.GetVch();
    ReverseTwice(BigNum.MpiBytes(bn.value));
    SignByte(bn.value);
    if |tmp| >= 2 && tmp[|tmp| - 1] == 0 && tmp[|tmp| - 2] >= 0x80 {
      var init, x := tmp[..|tmp| - 1], tmp[|tmp| - 1];
      assert tmp == init + [x];
      ReverseGrows([], x, init);
      tmp := tmp[..|tmp| - 1];
    }
    b := Reverse(tmp);
  }

  /** The text is read as exactly these bytes. */
  ghost predicate Spells(text: string, b: seq<nat>) { Readable(text, Text(b)) }

  /** The answer to decoding: the bytes the text spells, or none if it spells nothing. */
  ghost predicate Answers(text: string, ok: bool, b: seq<nat>) {
    && Valid(b, 256)
    && (!ok ==> b == [])
    && forall p {:trigger Spells(text, p)} :: Valid(p, 256) ==> (Spells(text, p) <==> ok && b == p)
  }

  method Decode(text: string) returns (ok: bool, b: seq<nat>)
    ensures Answers(text, ok, b)
  {
    ghost var c := CString(text);
    CStringShows(text);
    var start := SkipSpaces(text, 0, c);
    var end, n := ReadLetters(text, start, c);
    var stop := SkipSpaces(text, end, c);
    forall p {:trigger Spells(text, p)} | Valid(p, 256)
      ensures Spells(text, p) <==> Clean(text) && Bytes(WordOf(text)) == p
    {
      ReadableIff(text, Text(p));
      TextOfBytes(WordOf(text), p);
    }
    if At(text, stop) != '\0' { return false, []; }
    var bn := new BigNum.Number();
    bn.value := n;
    var zeros := CountOnes(text, start, c);
    var magnitude := Magnitude(bn);
    ok, b := true, Zeros(zeros) + magnitude;
    assert b == Bytes(WordOf(text));
  }

  /** Decoding gives back what was encoded: every byte string is spelled by its own text. */
  lemma TextSpells(b: seq<nat>)
    requires Valid(b, 256)
    ensures Spells(Text(b), b)
  {
    WordReadable(Text(b));
    ReadableIff(Text(b), Text(b));
  }

  /** Encoding gives back what was decoded: every word is the text of its bytes. */
  lemma WordsAreTexts(s: string, b: seq<nat>)
    requires Word(s) && Valid(b, 256) && Spells(s, b)
    ensures Text(b) == s
  {
    WordReadable(s);
    ReadableIff(s, Text(b));
  }

  // ----- with a checksum -----

  /** The first four bytes of a hash as they lie in memory. */
  function Checksum(hash: seq<nat> -> nat, b: seq<nat>): (sum: seq<nat>)
    ensures |sum| == 4 && Valid(sum, 256)
  {
    var h := hash(b);
    [h % 256, h / 0x100 % 256, h / 0x1_0000 % 256, h / 0x100_0000 % 256]
  }

  /** They are the lowest 32 bits of the hash, lowest byte first. */
  lemma ChecksumIs(hash: seq<nat> -> nat, b: seq<nat>)
    ensures Value(Reverse(Checksum(hash, b)), 256) == hash(b) % 0x1_0000_0000
  {
    var h := hash(b);
    BigNum.HeaderRoundTrip(h);
    var r := Reverse(Checksum(hash, b));
    assert r == BigNum.Header(h);
    FourBytes(r);
  }

  lemma FourBytes(b: seq<nat>)
    requires |b| == 4
    ensures Value(b, 256) == BigNum.HeaderValue(b)
  {
    assert b == b[..3] + [b[3]];
    ValuePush(b[..3], b[3], 256);
    BigNum.ThreeBytes(b[..3]);
  }

  function Sealed(hash: seq<nat> -> nat, b: seq<nat>): (r: seq<nat>)
    ensures Valid(b, 256) ==> Valid(r, 256)
  {
    b + Checksum(hash, b)
  }

  lemma SealedIff(hash: seq<nat> -> nat, b: seq<nat>, p: seq<nat>)
    ensures b == Sealed(hash, p) <==> |b| >= 4 && p == b[..|b| - 4] && Checksum(hash, p) == b[|b| - 4..]
  {
    if |b| >= 4 && p == b[..|b| - 4] { assert b == p + b[|b| - 4..]; }
  }

  method EncodeCheck(hash: seq<nat> -> nat, b: seq<nat>) returns (s: string)
    requires Valid(b, 256)
    ensures s == Encoded(Sealed(hash, b))
    ensures s == Text(Sealed(hash, b)) <==> |b| + 9 < 0x8000_0000 || Value(Sealed(hash, b), 256) == 0
  {
    var sealed := b + Checksum(hash, b);
    s := Encode(sealed);
  }

  /** The answer to decoding with checksum. */
  ghost predicate AnswersSealed(hash: seq<nat> -> nat, text: string, ok: bool, b: seq<nat>) {
    && Valid(b, 256)
    && (!ok ==> b == [])
    && forall p {:trigger Sealed(hash, p)} :: Valid(p, 256) ==> (Spells(text, Sealed(hash, p)) <==> ok && b == p)
  }

  predicate Genuine(hash: seq<nat> -> nat, b: seq<nat>) {
    |b| >= 4 && Checksum(hash, b[..|b| - 4]) == b[|b| - 4..]
  }

  lemma UnsealOne(hash: seq<nat> -> nat, text: string, ok: bool, b: seq<nat>, p: seq<nat>)
    requires Answers(text, ok, b) && Valid(p, 256)
    ensures Spells(text, Sealed(hash, p)) <==> ok && Genuine(hash, b) && b[..|b| - 4] == p
  {
    SealedIff(hash, b, p);
  }

  lemma Unseal(hash: seq<nat> -> nat, text: string, ok: bool, b: seq<nat>)
    requires Answers(text, ok, b)
    ensures if ok && Genuine(hash, b) then AnswersSealed(hash, text, true, b[..|b| - 4])
      else AnswersSealed(hash, text, false, [])
  {
    var good := ok && Genuine(hash, b);
    var payload := if |b| >= 4 then b[..|b| - 4] else [];
    forall p {:trigger Sealed(hash, p)} | Valid(p, 256)
      ensures Spells(text, Sealed(hash, p)) <==> good && payload == p
    {
      UnsealOne(hash, text, ok, b, p);
    }
  }

  method DecodeCheck(hash: seq<nat> -> nat, text: string) returns (ok: bool, b: seq<nat>)
    ensures AnswersSealed(hash, text, ok, b)
  {
    ok, b := Decode(text);
    Unseal(hash, text, ok, b);
    if !ok { return; }
    if |b| < 4 { return false, []; }
    var n := |b| - 4;
    if Checksum(hash, b[..n]) != b[n..] { return false, []; }
    b := b[..n];
  }

  // ----- with a version byte -----

  /** The text spells versioned data with its checksum. */
  ghost predicate Labels(text: string, hash: seq<nat> -> nat, version: nat, data: seq<nat>) {
    Spells(text, Sealed(hash, [version] + data))
  }

  /** The answer to reading versioned data: a text with no payload, or an empty one, is refused. */
  ghost predicate AnswersLabel(hash: seq<nat> -> nat, text: string, ok: bool, version: nat, data: seq<nat>) {
    && version < 256 && Valid(data, 256)
    && (!ok ==> version == 0 && data == [])
    && forall v, d {:trigger Labels(text, hash, v, d)} ::
        v < 256 && Valid(d, 256) ==> (Labels(text, hash, v, d) <==> ok && version == v && data == d)
  }

  lemma Unlabel(hash: seq<nat> -> nat, text: string, ok: bool, b: seq<nat>)
    requires AnswersSealed(hash, text, ok, b)
    ensures if b == [] then AnswersLabel(hash, text, false, 0, []) else AnswersLabel(hash, text, true, b[0], b[1..])
  {
    forall v: nat, d {:trigger Labels(text, hash, v, d)} | v < 256 && Valid(d, 256)
      ensures Labels(text, hash, v, d) <==> b != [] && b[0] == v && b[1..] == d
    {
      var p := [v] + d;
      assert Valid(p, 256);
      assert b != [] ==> b == [b[0]] + b[1..];
    }
  }

  class Data {
    var version: nat
    var data: seq<nat>

    predicate Ok()
      reads this
    {
      version < 256 && Valid(data, 256)
    }

    constructor ()
      ensures Ok() && version == 0 && data == []
    {
      version, data := 0, [];
    }

    method SetString(hash: seq<nat> -> nat, text: string) returns (ok: bool)
      modifies this
      ensures Ok() && AnswersLabel(hash, text, ok, version, data)
    {
      var valid, tmp := DecodeCheck(hash, text);
      Unlabel(hash, text, valid, tmp);
      if tmp == [] {
        version, data := 0, [];
        return false;
      }
      version, data := tmp[0], tmp[1..];
      return true;
    }

    method ToString(hash: seq<nat> -> nat) returns (s: string)
      requires Ok()
      ensures s == Encoded(Sealed(hash, [version] + data))
      ensures Labels(s, hash, version, data) <==>
        |data| + 10 < 0x8000_0000 || Value(Sealed(hash, [version] + data), 256) == 0
    {
      var sealed := Sealed(hash, [version] + data);
      s := EncodeCheck(hash, [version] + data);
      if s == Text(sealed) {
        TextSpells(sealed);
      } else if Spells(s, sealed) {
        WordsAreTexts(s, sealed);
      }
    }
  }
}
