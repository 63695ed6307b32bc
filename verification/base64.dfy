/** The hand-written base64 codec: two loops over a 32-bit accumulator that wraps around. */
module Base64 {
  type byte = x: int | 0 <= x < 256

  // ---------------------------------------------------------------- machine arithmetic

  const TWO_32: int := 0x1_0000_0000

  /** The 32-bit two's-complement value that agrees with v modulo 2^32. */
  function Wrap32(v: int): int {
    (v + 0x8000_0000) % TWO_32 - 0x8000_0000
  }

  // ---------------------------------------------------------------- the alphabet (RFC 4648, table 1)

  const PAD: byte := 61

  function Letter(i: int): byte
    requires 0 <= i < 64
  {
    if i < 26 then 65 + i
    else if i < 52 then 97 + (i - 26)
    else if i < 62 then 48 + (i - 52)
    else if i == 62 then 43
    else 47
  }

  /** The value of an alphabet letter, -1 for every other byte. */
  function Digit(c: byte): int
    ensures Digit(c) == -1 || (0 <= Digit(c) < 64 && Letter(Digit(c)) == c)
  {
    if 65 <= c <= 90 then c - 65
    else if 97 <= c <= 122 then c - 97 + 26
    else if 48 <= c <= 57 then c - 48 + 52
    else if c == 43 then 62
    else if c == 47 then 63
    else -1
  }

  lemma DigitOfLetter(i: int)
    requires 0 <= i < 64
    ensures Digit(Letter(i)) == i && Letter(i) != PAD
  {
  }

  const BASE64_CHARS: seq<byte> := seq(64, i requires 0 <= i < 64 => Letter(i))

  // ---------------------------------------------------------------- encoding (RFC 4648, section 4)

  /** The input octet at i; zero bits are added at the end of the data. */
  function Octet(s: seq<byte>, i: int): byte
    requires 0 <= i
  {
    if i < |s| then s[i] else 0
  }

  /** The g-th 24-bit input group. */
  function InputGroup(s: seq<byte>, g: nat): int {
    Octet(s, 3 * g) * 65536 + Octet(s, 3 * g + 1) * 256 + Octet(s, 3 * g + 2)
  }

  /** The j-th of the four 6-bit groups of a 24-bit group, most significant first. */
  function Sextet(group: int, j: int): int
    requires 0 <= j < 4
    ensures 0 <= Sextet(group, j) < 64
  {
    match j
    case 0 => group / 262144 % 64
    case 1 => group / 4096 % 64
    case 2 => group / 64 % 64
    case 3 => group % 64
  }

  function SextetAt(s: seq<byte>, k: nat): int
    ensures 0 <= SextetAt(s, k) < 64
  {
    Sextet(InputGroup(s, k / 4), k % 4)
  }

  /** The number of 6-bit groups that hold at least one bit of n octets of data. */
  function SextetCount(n: nat): nat {
    (8 * n + 5) / 6
  }

  /** Each 6-bit group is written as its letter; pad characters fill the last quantum of four. */
  function Encoded(s: seq<byte>): (r: seq<byte>)
    ensures |r| % 4 == 0 && |r| == 4 * ((|s| + 2) / 3)
  {
    seq(4 * ((|s| + 2) / 3), k requires 0 <= k => EncodedAt(s, k))
  }

  function EncodedAt(s: seq<byte>, k: nat): byte {
    if k < SextetCount(|s|) then Letter(SextetAt(s, k)) else PAD
  }

  function Pow2(n: nat): (p: int)
    ensures p > 0
  {
    if n == 0 then 1 else 2 * Pow2(n - 1)
  }

  lemma Pow2Values()
    ensures Pow2(0) == 1 && Pow2(2) == 4 && Pow2(4) == 16 && Pow2(6) == 64 && Pow2(8) == 256
  {
    assert Pow2(5) == 32;
  }

  /** Shifts of a two's-complement value: left is multiplication modulo 2^32, right rounds towards
      minus infinity. */
  function ShiftLeft(v: int, n: nat): int {
    Wrap32(v * Pow2(n))
  }

  function ShiftRight(v: int, n: nat): int {
    v / Pow2(n)
  }

  lemma DivMod(x: int, m: int, q: int, r: int)
    requires 0 <= r < m && x == q * m + r
    ensures x / m == q && x % m == r
  {
    var d := q - x / m;
    assert d * m == x % m - r by {
      assert x == x / m * m + x % m;
    }
    assert d >= 1 ==> d * m >= m;
    assert d <= -1 ==> d * m <= -m;
  }

  lemma Wrapped(v: int) returns (k: int)
    ensures Wrap32(v) == v - k * 4294967296
    ensures -2147483648 <= Wrap32(v) <= 2147483647
  {
    k := (v + 0x8000_0000) / TWO_32;
  }

  /** Shifting an octet in keeps the 4 lowest bits of the old accumulator, wrapped or not. */
  lemma ShiftInLowBits(val: int, c: int)
    requires 0 <= c < 256
    ensures var w := Wrap32(val * 256) + c;
            w % 256 == c && w % 1024 == val % 4 * 256 + c && w % 4096 == val % 16 * 256 + c
  {
    var k := Wrapped(val * 256);
    var w := Wrap32(val * 256) + c;
    DivMod(w, 256, val - k * 16777216, c);
    DivMod(w, 1024, val / 4 - k * 4194304, val % 4 * 256 + c);
    DivMod(w, 4096, val / 16 - k * 1048576, val % 16 * 256 + c);
  }

  /** Adding the octet to the shifted accumulator never leaves the 32-bit range. */
  lemma AdditionDoesNotOverflow(val: int, c: int)
    requires 0 <= c < 256
    ensures Wrap32(Wrap32(val * 256) + c) == Wrap32(val * 256) + c
  {
    var k := Wrapped(val * 256);
    assert Wrap32(val * 256) == (val - k * 16777216) * 256;
    assert Wrap32(val * 256) <= 2147483647 - 255;
  }

  lemma OctetBits(v: int, c: int)
    requires 0 <= c < 256 && v % 256 == c
    ensures v / 4 % 64 == c / 4 && v % 64 == c % 64 && v % 4 == c % 4 && v % 16 == c % 16
  {
    var a := v / 256;
    DivMod(v, 4, a * 64 + c / 4, c % 4);
    DivMod(v / 4, 64, a, c / 4);
    DivMod(v, 64, a * 4 + c / 64, c % 64);
    DivMod(v, 16, a * 16 + c / 16, c % 16);
  }

  lemma TwoBitsAndOctet(v: int, p: int, c: int)
    requires 0 <= c < 256 && 0 <= p < 4 && v % 1024 == p * 256 + c
    ensures v / 16 % 64 == p * 16 + c / 16
  {
    var a := v / 1024;
    DivMod(v, 16, a * 64 + (p * 16 + c / 16), c % 16);
    DivMod(v / 16, 64, a, p * 16 + c / 16);
  }

  lemma FourBitsAndOctet(v: int, p: int, c: int)
    requires 0 <= c < 256 && 0 <= p < 16 && v % 4096 == p * 256 + c
    ensures v / 64 % 64 == p * 4 + c / 64
  {
    var a := v / 4096;
    DivMod(v, 64, a * 64 + (p * 4 + c / 64), c % 64);
    DivMod(v / 64, 64, a, p * 4 + c / 64);
  }

  lemma GroupSextets(o0: int, o1: int, o2: int)
    requires 0 <= o0 < 256 && 0 <= o1 < 256 && 0 <= o2 < 256
    ensures var g := o0 * 65536 + o1 * 256 + o2;
            && Sextet(g, 0) == o0 / 4
            && Sextet(g, 1) == o0 % 4 * 16 + o1 / 16
            && Sextet(g, 2) == o1 % 16 * 4 + o2 / 64
            && Sextet(g, 3) == o2 % 64
  {
    var g := o0 * 65536 + o1 * 256 + o2;
    DivMod(g, 262144, o0 / 4, o0 % 4 * 65536 + o1 * 256 + o2);
    DivMod(o0 / 4, 64, 0, o0 / 4);
    DivMod(g, 4096, o0 * 16 + o1 / 16, o1 % 16 * 256 + o2);
    DivMod(o0 * 16 + o1 / 16, 64, o0 / 4, o0 % 4 * 16 + o1 / 16);
    DivMod(g, 64, o0 * 1024 + o1 * 4 + o2 / 64, o2 % 64);
    DivMod(o0 * 1024 + o1 * 4 + o2 / 64, 64, o0 * 16 + o1 / 16, o1 % 16 * 4 + o2 / 64);
  }

  /** The bits of the first i octets that do not fill a 6-bit group: none, 2 or 4 of them. */
  function Carry(s: seq<byte>, i: nat): int
    requires i <= |s|
  {
    if i % 3 == 0 then 0 else if i % 3 == 1 then s[i - 1] % 4 else s[i - 1] % 16
  }

  ghost predicate Pending(s: seq<byte>, i: nat, val: int) {
    && i <= |s|
    && (i % 3 == 1 ==> val % 4 == Carry(s, i))
    && (i % 3 == 2 ==> val % 16 == Carry(s, i))
  }

  /** After shifting in octet i the low bits are what was pending followed by the octet. */
  ghost predicate Shifted(s: seq<byte>, i: nat, val: int) {
    && i < |s|
    && val % 256 == s[i]
    && (i % 3 == 1 ==> val % 1024 == Carry(s, i) * 256 + s[i] as int)
    && (i % 3 == 2 ==> val % 4096 == Carry(s, i) * 256 + s[i] as int)
  }

  lemma ShiftIn(s: seq<byte>, i: nat, val: int)
    requires i < |s| && Pending(s, i, val)
    ensures Shifted(s, i, ShiftLeft(val, 8) + s[i])
    ensures Wrap32(ShiftLeft(val, 8) + s[i]) == ShiftLeft(val, 8) + s[i]
  {
    Pow2Values();
    assert ShiftLeft(val, 8) == Wrap32(val * 256);
    ShiftInLowBits(val, s[i]);
    AdditionDoesNotOverflow(val, s[i]);
  }

  lemma GroupAt(s: seq<byte>, q: nat)
    ensures SextetAt(s, 4 * q) == Octet(s, 3 * q) / 4
    ensures SextetAt(s, 4 * q + 1) == Octet(s, 3 * q) % 4 * 16 + Octet(s, 3 * q + 1) / 16
    ensures SextetAt(s, 4 * q + 2) == Octet(s, 3 * q + 1) % 16 * 4 + Octet(s, 3 * q + 2) / 64
    ensures SextetAt(s, 4 * q + 3) == Octet(s, 3 * q + 2) % 64
  {
    GroupSextets(Octet(s, 3 * q), Octet(s, 3 * q + 1), Octet(s, 3 * q + 2));
    assert (4 * q) % 4 == 0 && (4 * q + 1) % 4 == 1 && (4 * q + 2) % 4 == 2 && (4 * q + 3) % 4 == 3;
  }

  /** The j-th 6-bit group straddles the octets before and at position j of its group. */
  function Split(j: int, before: int, at: int): int
    requires 0 <= j < 4
  {
    match j
    case 0 => at / 4
    case 1 => before % 4 * 16 + at / 16
    case 2 => before % 16 * 4 + at / 64
    case 3 => before % 64
  }

  lemma SextetIsSplit(s: seq<byte>, q: nat, j: nat)
    requires j < 4
    ensures SextetAt(s, 4 * q + j) ==
            Split(j, if j == 0 then 0 else Octet(s, 3 * q + j - 1), if j == 3 then 0 else Octet(s, 3 * q + j))
  {
    GroupAt(s, q);
  }

  lemma SextetAtStart(s: seq<byte>, i: nat, q: nat, val: int)
    requires Shifted(s, i, val) && i == 3 * q
    ensures ShiftRight(val, 2) % 64 == SextetAt(s, 4 * q)
  {
    assert ShiftRight(val, 2) == val / 4 by { Pow2Values(); }
    OctetBits(val, s[i]);
    SextetIsSplit(s, q, 0);
  }

  lemma SextetAfterOne(s: seq<byte>, i: nat, q: nat, val: int)
    requires Shifted(s, i, val) && i == 3 * q + 1
    ensures ShiftRight(val, 4) % 64 == SextetAt(s, 4 * q + 1)
  {
    assert i % 3 == 1;
    assert ShiftRight(val, 4) == val / 16 by { Pow2Values(); }
    TwoBitsAndOctet(val, Carry(s, i), s[i]);
    SextetIsSplit(s, q, 1);
  }

  lemma SextetAfterTwo(s: seq<byte>, i: nat, q: nat, val: int)
    requires Shifted(s, i, val) && i == 3 * q + 2
    ensures ShiftRight(val, 6) % 64 == SextetAt(s, 4 * q + 2)
  {
    assert i % 3 == 2;
    assert ShiftRight(val, 6) == val / 64 by { Pow2Values(); }
    FourBitsAndOctet(val, Carry(s, i), s[i]);
    SextetIsSplit(s, q, 2);
  }

  lemma SextetAtEnd(s: seq<byte>, i: nat, q: nat, val: int)
    requires Shifted(s, i, val) && i == 3 * q + 2
    ensures ShiftRight(val, 0) % 64 == SextetAt(s, 4 * q + 3)
  {
    assert ShiftRight(val, 0) == val by { Pow2Values(); }
    OctetBits(val, s[i]);
    SextetIsSplit(s, q, 3);
  }

  /** Where the inner loop stands: the letter to write and the shift that brings it down. */
  lemma LetterPosition(i: nat, n: nat, bits: int, size: nat)
    requires i < size && 0 <= bits <= 6 && bits + 6 == 8 * (i + 1) - 6 * n
    ensures n < SextetCount(size)
    ensures var q := i / 3;
            || (i == 3 * q && n == 4 * q && bits == 2)
            || (i == 3 * q + 1 && n == 4 * q + 1 && bits == 4)
            || (i == 3 * q + 2 && n == 4 * q + 2 && bits == 6)
            || (i == 3 * q + 2 && n == 4 * q + 3 && bits == 0)
  {
  }

  /** Each letter the inner loop writes is the next 6-bit group. */
  lemma NextSextet(s: seq<byte>, i: nat, n: nat, bits: int, val: int)
    requires Shifted(s, i, val) && 0 <= bits <= 6 && bits + 6 == 8 * (i + 1) - 6 * n
    ensures ShiftRight(val, bits) % 64 == SextetAt(s, n) && n < SextetCount(|s|)
  {
    var q := i / 3;
    LetterPosition(i, n, bits, |s|);
    if bits == 2 {
      SextetAtStart(s, i, q, val);
    } else if bits == 4 {
      SextetAfterOne(s, i, q, val);
    } else if bits == 6 {
      SextetAfterTwo(s, i, q, val);
    } else {
      SextetAtEnd(s, i, q, val);
    }
  }

  lemma WrittenLetter(s: seq<byte>, n: nat, idx: int)
    requires n < SextetCount(|s|) && idx == SextetAt(s, n)
    ensures n < |Encoded(s)| && Encoded(s)[n] == Letter(idx)
  {
    QuantumCount(|s|);
    assert Encoded(s)[n] == EncodedAt(s, n);
  }

  lemma ShiftedKeepsPending(s: seq<byte>, i: nat, val: int)
    requires Shifted(s, i, val)
    ensures Pending(s, i + 1, val)
  {
    OctetBits(val, s[i]);
  }

  lemma LastAfterOne(s: seq<byte>, q: nat, val: int)
    requires Pending(s, |s|, val) && |s| == 3 * q + 1
    ensures ShiftRight(ShiftLeft(val, 8), 4) % 64 == SextetAt(s, 4 * q + 1)
  {
    var w := ShiftLeft(val, 8);
    assert |s| % 3 == 1;
    assert w == Wrap32(val * 256) && ShiftRight(w, 4) == w / 16 by { Pow2Values(); }
    ShiftInLowBits(val, 0);
    TwoBitsAndOctet(w, Carry(s, |s|), 0);
    SextetIsSplit(s, q, 1);
  }

  lemma LastAfterTwo(s: seq<byte>, q: nat, val: int)
    requires Pending(s, |s|, val) && |s| == 3 * q + 2
    ensures ShiftRight(ShiftLeft(val, 8), 6) % 64 == SextetAt(s, 4 * q + 2)
  {
    var w := ShiftLeft(val, 8);
    assert |s| % 3 == 2;
    assert w == Wrap32(val * 256) && ShiftRight(w, 6) == w / 64 by { Pow2Values(); }
    ShiftInLowBits(val, 0);
    FourBitsAndOctet(w, Carry(s, |s|), 0);
    SextetIsSplit(s, q, 2);
  }

  lemma LastPosition(size: nat, n: nat, bits: int)
    requires -6 < bits < 0 && bits + 6 == 8 * size - 6 * n
    ensures var q := size / 3;
            || (size == 3 * q + 1 && n == 4 * q + 1 && bits == -4)
            || (size == 3 * q + 2 && n == 4 * q + 2 && bits == -2)
  {
  }

  /** The last, partial group is completed with zero bits. */
  lemma LastSextet(s: seq<byte>, n: nat, bits: int, val: int)
    requires Pending(s, |s|, val) && -6 < bits < 0 && bits + 6 == 8 * |s| - 6 * n
    ensures ShiftRight(ShiftLeft(val, 8), bits + 8) % 64 == SextetAt(s, n)
  {
    LastPosition(|s|, n, bits);
    if bits == -4 {
      LastAfterOne(s, |s| / 3, val);
    } else {
      LastAfterTwo(s, |s| / 3, val);
    }
  }

  lemma LastCount(n: nat, m: nat)
    requires 0 < 8 * n - 6 * m < 6
    ensures m + 1 == SextetCount(n)
  {
    DivMod(8 * n + 5, 6, m + 1, 8 * n - 6 * m - 1);
  }

  /** base64_encode: for inputs of any length, although the accumulator wraps, the result is the
      encoding of section 4 of RFC 4648. */
  method Encode(input: seq<byte>) returns (out: seq<byte>)
    ensures out == Encoded(input)
  {
    out := [];
    var val, bits := 0, -6;
    for i := 0 to |input|
      invariant Pending(input, i, val) && -6 <= bits < 0
      invariant bits + 6 == 8 * i - 6 * |out|
      invariant out <= Encoded(input)
    {
      ShiftIn(input, i, val);
      val := ShiftLeft(val, 8) + input[i];
      bits := bits + 8;
      while bits >= 0
        invariant Shifted(input, i, val) && -6 <= bits <= 6
        invariant bits + 6 == 8 * (i + 1) - 6 * |out|
        invariant out <= Encoded(input)
      {
        NextSextet(input, i, |out|, bits, val);
        var idx := ShiftRight(val, bits) % 64;
        WrittenLetter(input, |out|, idx);
        out := out + [BASE64_CHARS[idx]];
        bits := bits - 6;
      }
      ShiftedKeepsPending(input, i, val);
    }
    if bits > -6 {
      LastSextet(input, |out|, bits, val);
      LastCount(|input|, |out|);
      var idx := ShiftRight(ShiftLeft(val, 8), bits + 8) % 64;
      WrittenLetter(input, |out|, idx);
      out := out + [BASE64_CHARS[idx]];
    }
    FullCount(|input|, |out|);
    ghost var letters := out;
    out := FillQuantum(out);
    PaddingCompletes(input, letters, out);
  }

  /** The closing loop: pad up to a multiple of four. */
  method FillQuantum(letters: seq<byte>) returns (out: seq<byte>)
    ensures letters <= out && PaddedFrom(out, |letters|) && |out| % 4 == 0 && |out| <= 4 * ((|letters| + 3) / 4)
  {
    out := letters;
    ghost var quanta := (|out| + 3) / 4;
    while |out| % 4 != 0
      invariant letters <= out && PaddedFrom(out, |letters|) && |letters| <= |out| <= 4 * quanta
      decreases 4 * quanta - |out|
    {
      out := out + [PAD];
    }
  }

  lemma FullCount(n: nat, m: nat)
    ensures 8 * n == 6 * m ==> m == SextetCount(n)
  {
  }

  lemma PaddingCompletes(s: seq<byte>, letters: seq<byte>, out: seq<byte>)
    requires letters <= Encoded(s) && |letters| == SextetCount(|s|) && letters <= out && PaddedFrom(out, |letters|)
    requires |out| % 4 == 0 && |out| <= 4 * ((|letters| + 3) / 4)
    ensures out == Encoded(s)
  {
    PaddedLength(|s|, |out|);
    EncodedTail(s);
    SameBytes(out, Encoded(s), letters);
  }

  lemma PaddedLength(n: nat, a: nat)
    requires a % 4 == 0 && SextetCount(n) <= a <= 4 * ((SextetCount(n) + 3) / 4)
    ensures a == 4 * ((n + 2) / 3)
  {
    QuantumCount(n);
    var m, quanta := a / 4, (n + 2) / 3;
    assert a == 4 * m;
    assert quanta - 1 < m <= quanta;
  }

  lemma EncodedTail(s: seq<byte>)
    ensures PaddedFrom(Encoded(s), SextetCount(|s|))
  {
    forall k | SextetCount(|s|) <= k < |Encoded(s)|
      ensures Encoded(s)[k] == PAD
    {
      assert Encoded(s)[k] == EncodedAt(s, k);
    }
  }

  ghost predicate PaddedFrom(out: seq<byte>, n: nat) {
    forall k | n <= k < |out| :: out[k] == PAD
  }

  lemma SameBytes(a: seq<byte>, b: seq<byte>, letters: seq<byte>)
    requires |a| == |b| && letters <= a && letters <= b
    requires PaddedFrom(a, |letters|) && PaddedFrom(b, |letters|)
    ensures a == b
  {
    assert forall k | 0 <= k < |letters| :: a[k] == letters[k] == b[k];
  }

  lemma QuantumCount(n: nat)
    ensures (SextetCount(n) + 3) / 4 == (n + 2) / 3
    ensures 4 * ((n + 2) / 3) - 4 < SextetCount(n) <= 4 * ((n + 2) / 3)
  {
    var q := n / 3;
    if n % 3 == 0 {
      assert SextetCount(n) == 4 * q;
    } else if n % 3 == 1 {
      assert SextetCount(n) == 4 * q + 2;
    } else {
      assert SextetCount(n) == 4 * q + 3;
    }
  }

  // ---------------------------------------------------------------- decoding

  /** The values of the alphabet letters of s, in order; every other byte is skipped, padding included. */
  function Digits(s: seq<byte>): seq<int> {
    if s == [] then []
    else
      var c := s[|s| - 1];
      Digits(s[..|s| - 1]) + if Digit(c) >= 0 then [Digit(c)] else []
  }

  ghost predicate AllSextets(d: seq<int>) {
    forall i | 0 <= i < |d| :: 0 <= d[i] < 64
  }

  lemma {:induction false} DigitsAreSextets(s: seq<byte>)
    ensures AllSextets(Digits(s))
  {
    if s != [] {
      DigitsAreSextets(s[..|s| - 1]);
    }
  }

  /** The k-th octet packed into the 6-bit groups d. */
  function OctetAt(d: seq<int>, k: nat): int
    requires 8 * (k + 1) <= 6 * |d|
  {
    var i := 4 * (k / 3) + k % 3;
    Packed(k % 3, d[i], d[i + 1])
  }

  /** The j-th octet of a group straddles the j-th and the next 6-bit group. */
  function Packed(j: int, a: int, b: int): int
    requires 0 <= j < 3
  {
    match j
    case 0 => a * 4 + b / 16
    case 1 => a % 16 * 16 + b / 4
    case 2 => a % 4 * 64 + b
  }

  lemma OctetRange(d: seq<int>, k: nat)
    requires AllSextets(d) && 8 * (k + 1) <= 6 * |d|
    ensures 0 <= OctetAt(d, k) < 256
  {
  }

  function OctetByte(d: seq<int>, k: nat): byte
    requires AllSextets(d) && 8 * (k + 1) <= 6 * |d|
  {
    OctetRange(d, k);
    OctetAt(d, k)
  }

  /** The octets held completely by the letters of s; left-over bits are dropped. */
  function Decoded(s: seq<byte>): (r: seq<byte>)
    ensures |r| == 6 * |Digits(s)| / 8
  {
    DigitsAreSextets(s);
    var d := Digits(s);
    seq(6 * |d| / 8, k requires 0 <= k < 6 * |d| / 8 => OctetByte(d, k))
  }

  /** The low bits of the accumulator not yet written after the groups d: 0, 6, 4 or 2 of them. */
  function Rest(d: seq<int>): int {
    var n := |d|;
    if n % 4 == 0 then 0 else if n % 4 == 1 then d[n - 1] else if n % 4 == 2 then d[n - 1] % 16 else d[n - 1] % 4
  }

  ghost predicate Held(d: seq<int>, val: int) {
    && AllSextets(d)
    && (|d| % 4 == 1 ==> val % 64 == Rest(d))
    && (|d| % 4 == 2 ==> val % 16 == Rest(d))
    && (|d| % 4 == 3 ==> val % 4 == Rest(d))
  }

  lemma ShiftInSextet(val: int, t: int)
    requires 0 <= t < 64
    ensures var w := Wrap32(val * 64) + t;
            && w % 64 == t && w % 256 == val % 4 * 64 + t
            && w % 1024 == val % 16 * 64 + t && w % 4096 == val % 64 * 64 + t
    ensures Wrap32(Wrap32(val * 64) + t) == Wrap32(val * 64) + t
  {
    var k := Wrapped(val * 64);
    var w := Wrap32(val * 64) + t;
    DivMod(w, 64, val - k * 67108864, t);
    DivMod(w, 256, val / 4 - k * 16777216, val % 4 * 64 + t);
    DivMod(w, 1024, val / 16 - k * 4194304, val % 16 * 64 + t);
    DivMod(w, 4096, val / 64 - k * 1048576, val % 64 * 64 + t);
    assert Wrap32(val * 64) == (val - k * 67108864) * 64 <= 2147483647 - 63;
  }

  lemma SextetBits(v: int, t: int)
    requires 0 <= t < 64 && v % 64 == t
    ensures v % 16 == t % 16 && v % 4 == t % 4
  {
    DivMod(v, 16, v / 64 * 4 + t / 16, t % 16);
    DivMod(v, 4, v / 64 * 16 + t / 4, t % 4);
  }

  lemma SixBitsAndSextet(v: int, p: int, t: int)
    requires 0 <= t < 64 && 0 <= p < 64 && v % 4096 == p * 64 + t
    ensures v / 16 % 256 == p * 4 + t / 16
  {
    DivMod(v, 16, v / 4096 * 256 + (p * 4 + t / 16), t % 16);
    DivMod(v / 16, 256, v / 4096, p * 4 + t / 16);
  }

  lemma FourBitsAndSextet(v: int, p: int, t: int)
    requires 0 <= t < 64 && 0 <= p < 16 && v % 1024 == p * 64 + t
    ensures v / 4 % 256 == p * 16 + t / 4
  {
    DivMod(v, 4, v / 1024 * 256 + (p * 16 + t / 4), t % 4);
    DivMod(v / 4, 256, v / 1024, p * 16 + t / 4);
  }

  /** One letter shifted in: what is held, and the octet it completes if there is one. */
  lemma ShiftInLetter(d: seq<int>, t: int, n: nat, bits: int, val: int)
    requires 0 <= t < 64 && Held(d, val) && bits + 8 == 6 * |d| - 8 * n && -8 <= bits < 0
    ensures var w := ShiftLeft(val, 6) + t;
            && Wrap32(w) == w && Held(d + [t], w)
            && (bits + 6 >= 0 ==> 8 * (n + 1) <= 6 * |d + [t]| && ShiftRight(w, bits + 6) % 256 == OctetAt(d + [t], n))
  {
    var w, q, d' := ShiftLeft(val, 6) + t, |d| / 4, d + [t];
    assert w == Wrap32(val * 64) + t by { Pow2Values(); }
    ShiftInSextet(val, t);
    SextetBits(w, t);
    if |d| % 4 == 0 {
      assert bits == -8;
    } else if |d| % 4 == 1 {
      assert |d| == 4 * q + 1 && n == 3 * q && bits == -2;
      assert ShiftRight(w, 4) == w / 16 by { Pow2Values(); }
      SixBitsAndSextet(w, Rest(d), t);
      assert d'[4 * q] == d[|d| - 1] && d'[4 * q + 1] == t;
    } else if |d| % 4 == 2 {
      assert |d| == 4 * q + 2 && n == 3 * q + 1 && bits == -4;
      assert ShiftRight(w, 2) == w / 4 by { Pow2Values(); }
      FourBitsAndSextet(w, Rest(d), t);
      assert d'[4 * q + 1] == d[|d| - 1] && d'[4 * q + 2] == t;
    } else {
      assert |d| == 4 * q + 3 && n == 3 * q + 2 && bits == -6;
      assert ShiftRight(w, 0) == w;
      assert d'[4 * q + 2] == d[|d| - 1] && d'[4 * q + 3] == t;
    }
  }

  /** out holds the octets of the groups d. */
  ghost predicate IsDecoding(out: seq<byte>, d: seq<int>) {
    && |out| == 6 * |d| / 8
    && forall k | 0 <= k < |out| :: out[k] == OctetAt(d, k)
  }

  /** The decoder's variables after the groups d. */
  ghost predicate DecodeState(d: seq<int>, out: seq<byte>, val: int, bits: int) {
    && Held(d, val) && -8 <= bits < 0
    && bits + 8 == 6 * |d| - 8 * |out|
    && IsDecoding(out, d)
  }

  lemma DecodeStep(d: seq<int>, t: int, out: seq<byte>, val: int, bits: int)
    requires 0 <= t < 64 && DecodeState(d, out, val, bits)
    ensures var w := ShiftLeft(val, 6) + t;
            if bits + 6 >= 0
            then DecodeState(d + [t], out + [ShiftRight(w, bits + 6) % 256], w, bits + 6 - 8)
            else DecodeState(d + [t], out, w, bits + 6)
  {
    ShiftInLetter(d, t, |out|, bits, val);
    forall k | 0 <= k < |out|
      ensures OctetAt(d + [t], k) == out[k]
    {
      assert OctetAt(d, k) == out[k];
    }
  }

  lemma DigitsOfPrefix(s: seq<byte>, i: nat)
    requires i < |s|
    ensures Digits(s[..i + 1]) == if Digit(s[i]) >= 0 then Digits(s[..i]) + [Digit(s[i])] else Digits(s[..i])
  {
    var p := s[..i + 1];
    assert p[..|p| - 1] == s[..i] && p[|p| - 1] == s[i];
    assert Digits(s[..i]) + [] == Digits(s[..i]);
  }

  method BuildTable() returns (table: seq<int>)
    ensures |table| == 256 && forall c: byte :: table[c] == Digit(c)
  {
    var t := new int[256](_ => -1);
    for i := 0 to 64
      invariant forall c: byte :: t[c] == if 0 <= Digit(c) < i then Digit(c) else -1
    {
      DigitOfLetter(i);
      t[BASE64_CHARS[i]] := i;
    }
    return t[..];
  }

  /** The loop body for one letter of value t. */
  method Absorb(t: int, out: seq<byte>, val: int, bits: int, ghost d: seq<int>)
    returns (out': seq<byte>, val': int, bits': int)
    requires 0 <= t < 64 && DecodeState(d, out, val, bits)
    ensures DecodeState(d + [t], out', val', bits')
  {
    DecodeStep(d, t, out, val, bits);
    out', val', bits' := out, ShiftLeft(val, 6) + t, bits + 6;
    if bits' >= 0 {
      out' := out' + [ShiftRight(val', bits') % 256];
      bits' := bits' - 8;
    }
  }

  /** base64_decode: the octets packed into the alphabet letters of the input. */
  method Decode(input: seq<byte>) returns (out: seq<byte>)
    ensures out == Decoded(input)
  {
    var table := BuildTable();
    out := [];
    var val, bits := 0, -8;
    assert input[..0] == [];
    for i := 0 to |input|
      invariant DecodeState(Digits(input[..i]), out, val, bits)
    {
      var c := input[i];
      DigitsOfPrefix(input, i);
      if c == PAD || table[c] == -1 {
        continue;
      }
      out, val, bits := Absorb(table[c], out, val, bits, Digits(input[..i]));
    }
    assert input[..|input|] == input;
    forall k | 0 <= k < |out|
      ensures out[k] == Decoded(input)[k]
    {
      assert out[k] == OctetAt(Digits(input), k);
    }
  }

  // ---------------------------------------------------------------- the two together

  lemma {:induction false} DigitsConcat(a: seq<byte>, b: seq<byte>)
    ensures Digits(a + b) == Digits(a) + Digits(b)
  {
    if b == [] {
      assert a + b == a;
      assert Digits(a) + [] == Digits(a);
    } else {
      var b' := b[..|b| - 1];
      assert (a + b)[..|a + b| - 1] == a + b';
      DigitsConcat(a, b');
    }
  }

  lemma {:induction false} NoLettersNoDigits(s: seq<byte>)
    requires forall c | c in s :: Digit(c) == -1
    ensures Digits(s) == []
  {
    if s != [] {
      NoLettersNoDigits(s[..|s| - 1]);
    }
  }

  lemma {:induction false} AllLettersAllDigits(s: seq<byte>)
    requires forall i | 0 <= i < |s| :: Digit(s[i]) >= 0
    ensures |Digits(s)| == |s| && forall i | 0 <= i < |s| :: Digits(s)[i] == Digit(s[i])
  {
    if s != [] {
      AllLettersAllDigits(s[..|s| - 1]);
    }
  }

  /** Inserting or removing bytes outside the alphabet, padding included, never changes the decoding. */
  lemma ForeignBytesIgnored(a: seq<byte>, junk: seq<byte>, b: seq<byte>)
    requires forall c | c in junk :: Digit(c) == -1
    ensures Decoded(a + junk + b) == Decoded(a + b)
  {
    NoLettersNoDigits(junk);
    DigitsConcat(a + junk, b);
    DigitsConcat(a, junk);
    DigitsConcat(a, b);
    assert Digits(a) + [] == Digits(a);
  }

  /** n letters decode to floor(6n/8) octets. */
  lemma DecodedLength(s: seq<byte>)
    requires forall i | 0 <= i < |s| :: Digit(s[i]) >= 0
    ensures |Decoded(s)| == 6 * |s| / 8
  {
    AllLettersAllDigits(s);
  }

  ghost predicate HoldsGroups(d: seq<int>, s: seq<byte>) {
    |d| == SextetCount(|s|) && forall i: nat | i < |d| :: d[i] == SextetAt(s, i)
  }

  /** The letters of an encoding carry the input's 6-bit groups. */
  lemma DigitsOfEncoding(s: seq<byte>)
    ensures HoldsGroups(Digits(Encoded(s)), s)
  {
    var n, e := SextetCount(|s|), Encoded(s);
    QuantumCount(|s|);
    EncodedTail(s);
    forall k | 0 <= k < n
      ensures e[k] == Letter(SextetAt(s, k)) && Digit(e[k]) == SextetAt(s, k)
    {
      assert e[k] == EncodedAt(s, k);
      DigitOfLetter(SextetAt(s, k));
    }
    AllLettersAllDigits(e[..n]);
    NoLettersNoDigits(e[n..]);
    assert e == e[..n] + e[n..];
    DigitsConcat(e[..n], e[n..]);
    assert Digits(e[..n]) + [] == Digits(e[..n]);
  }

  lemma OctetCount(n: nat)
    ensures 6 * SextetCount(n) / 8 == n
  {
    DivMod(6 * SextetCount(n), 8, n, 6 * SextetCount(n) - 8 * n);
  }

  lemma PackedSplit(j: int, x: int, y: int, z: int)
    requires 0 <= j < 3 && 0 <= y < 256 && 0 <= z < 256
    ensures Packed(j, Split(j, x, y), Split(j + 1, y, z)) == y
  {
    match j
    case 0 => DivMod(y % 4 * 16 + z / 16, 16, y % 4, z / 16);
    case 1 =>
      DivMod(x % 4 * 16 + y / 16, 16, x % 4, y / 16);
      DivMod(y % 16 * 4 + z / 64, 4, y % 16, z / 64);
    case 2 => DivMod(x % 16 * 4 + y / 64, 4, x % 16, y / 64);
  }

  /** Decoding an encoding gives the input back, for every byte string. */
  lemma RoundTrip(s: seq<byte>)
    ensures Decoded(Encoded(s)) == s
  {
    var d := Digits(Encoded(s));
    DigitsOfEncoding(s);
    OctetCount(|s|);
    forall k | 0 <= k < |s|
      ensures Decoded(Encoded(s))[k] == s[k]
    {
      OctetSurvives(s, d, k);
    }
  }

  lemma OctetSurvives(s: seq<byte>, d: seq<int>, k: nat)
    requires k < |s| && HoldsGroups(d, s)
    ensures 8 * (k + 1) <= 6 * |d| && OctetAt(d, k) == s[k]
  {
    var q, j := k / 3, k % 3;
    assert k == 3 * q + j;
    var i := 4 * q + j;
    SextetIsSplit(s, q, j);
    SextetIsSplit(s, q, j + 1);
    PackedSplit(j, if j == 0 then 0 else Octet(s, k - 1), s[k], if j == 2 then 0 else Octet(s, k + 1));
    assert d[i] == SextetAt(s, i) && d[i + 1] == SextetAt(s, i + 1);
  }
}
