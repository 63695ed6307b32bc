/** The encoding in the terms of RFC 4648: its alphabet, and what a group of letters stands for. */
module Base64Alphabet {
  import opened Base64

  const UPPER := "ABCDEFGHIJKLMNOPQRSTUVWXYZ"
  const LOWER := "abcdefghijklmnopqrstuvwxyz"
  const OTHERS := "0123456789+/"

  const ALPHABET: string := UPPER + LOWER + OTHERS

  /** The letters are the characters of this alphabet, in its order, and no other byte is a letter; the
      padding is '='. */
  lemma AlphabetMeaning()
    ensures |ALPHABET| == 64 && PAD == '=' as int
    ensures forall i | 0 <= i < 64 :: Letter(i) == ALPHABET[i] as int
    ensures forall c: byte :: Digit(c) >= 0 ==> Digit(c) < 64 && c == ALPHABET[Digit(c)] as int
    ensures forall i | 0 <= i < 64 :: Digit(Letter(i)) == i
  {
    forall i | 0 <= i < 64
      ensures Letter(i) == ALPHABET[i] as int && Digit(Letter(i)) == i
    {
      LetterIs(i);
      DigitOfLetter(i);
    }
  }

  lemma LetterIs(i: int)
    requires 0 <= i < 64
    ensures Letter(i) == ALPHABET[i] as int
  {
    if i < 26 {
      UpperCase(i);
    } else if i < 52 {
      LowerCase(i - 26);
    } else {
      OtherLetters(i - 52);
    }
  }

  lemma UpperCase(i: int)
    requires 0 <= i < 26
    ensures ALPHABET[i] as int == 65 + i
  {
    assert ALPHABET[i] == UPPER[i];
  }

  lemma LowerCase(i: int)
    requires 0 <= i < 26
    ensures ALPHABET[26 + i] as int == 97 + i
  {
    assert ALPHABET[26 + i] == LOWER[i];
  }

  lemma OtherLetters(i: int)
    requires 0 <= i < 12
    ensures ALPHABET[52 + i] as int == if i < 10 then 48 + i else if i == 10 then 43 else 47
  {
    assert ALPHABET[52 + i] == OTHERS[i];
  }

  /** Four sextets, read as one number, are three octets read as one number, highest first. */
  lemma QuantumValue(s: seq<byte>, q: nat)
    ensures SextetAt(s, 4 * q) * 262144 + SextetAt(s, 4 * q + 1) * 4096 + SextetAt(s, 4 * q + 2) * 64 + SextetAt(s, 4 * q + 3)
            == Octet(s, 3 * q) * 65536 + Octet(s, 3 * q + 1) * 256 + Octet(s, 3 * q + 2)
  {
    GroupAt(s, q);
    SplitOctet(Octet(s, 3 * q), 4);
    SplitOctet(Octet(s, 3 * q + 1), 16);
    SplitOctet(Octet(s, 3 * q + 2), 64);
  }

  lemma SplitOctet(o: int, m: int)
    requires m > 0
    ensures o == o / m * m + o % m
  {
  }
}
